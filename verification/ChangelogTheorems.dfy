/**
 What a fold promises about layout: every category's entries end up, in order,
 right under the first header of that category; and splitting the folded file again
 finds the same outer parts, unless an entry was put at the very end of the section.
 */
module ChangelogTheorems {
  import opened Wrappers
  import opened Sequences
  import opened Text
  import opened Words
  import opened Changelog
  import opened ChangelogLayout

  /* ---------- What the fragments must look like ---------- */

  /** As `parse_fragment` leaves a body: not empty, and stripped. */
  predicate Stripped(s: string) {
    s != "" && IsStripped(IsSpace, s)
  }

  predicate NoLineStartsWith(lines: seq<string>, prefix: string) {
    forall i :: 0 <= i < |lines| ==> !StartsWith(lines[i], prefix)
  }

  /** As `collect` files fragments: under a word, with stripped entries. */
  predicate IsFiled(group: Group) {
    IsWord(group.header) && forall e :: e in group.entries ==> Stripped(e)
  }

  predicate AreFiled(groups: seq<Group>) {
    forall i :: 0 <= i < |groups| ==> IsFiled(groups[i])
  }

  predicate HasNoHeader(lines: seq<string>, header: string) {
    forall j :: 0 <= j < |lines| ==> !IsHeaderLine(lines[j], header)
  }

  /** Another category, and no line of the entries is its header line if it has entries itself. */
  predicate IsApart(group: Group, other: Group) {
    && group.header != other.header
    && (other.entries != [] ==> HasNoHeader(EntryLines(group), other.header))
  }

  /** Different categories, whose entries do not contain each other's header lines. */
  predicate AllTame(groups: seq<Group>) {
    && AreFiled(groups)
    && forall i, j :: 0 <= i < |groups| && 0 <= j < |groups| && i != j ==> IsApart(groups[i], groups[j])
  }

  /* ---------- Lines of entries ---------- */

  lemma {:induction false} EdgesOfLines(text: string)
    ensures text != "" && !IsSpace(text[0]) ==> !IsBlank(Lines(text)[0])
    ensures text != "" && !IsSpace(text[|text| - 1]) ==> !IsBlank(Lines(text)[|Lines(text)| - 1])
    ensures Lines(text)[|Lines(text)| - 1] == "" <==> text == "" || text[|text| - 1] == '\n'
  {
    if text != "" {
      var rest := Lines(text[1..]);
      EdgesOfLines(text[1..]);
      if text[0] == '\n' {
        assert Lines(text) == [""] + rest;
      } else {
        var first := [text[0]] + rest[0];
        assert Lines(text) == [first] + rest[1..];
        assert first[0] == text[0];
        if |rest| == 1 {
          assert text[1..] != "" ==> first[1..] == rest[0];
          BlankCons(first);
        }
      }
    }
  }

  lemma {:induction false} JoinedIsStripped(parts: seq<string>)
    requires parts != [] && forall e :: e in parts ==> Stripped(e)
    ensures Stripped(Join("\n", parts))
  {
    assert parts[0] in parts;
    if |parts| > 1 {
      JoinedIsStripped(parts[1..]);
      var rest := Join("\n", parts[1..]);
      var all := parts[0] + "\n" + rest;
      assert all[0] == parts[0][0] && all[|all| - 1] == rest[|rest| - 1];
    }
  }

  lemma EntryEdges(group: Group)
    requires IsFiled(group) && group.entries != []
    ensures !IsBlank(EntryLines(group)[0])
    ensures !IsBlank(EntryLines(group)[|EntryLines(group)| - 1])
  {
    JoinedIsStripped(group.entries);
    EdgesOfLines(Joined(group));
  }

  /* ---------- Header lines ---------- */

  lemma HeaderChar(line: string, header: string, i: nat)
    requires IsHeaderLine(line, header) && i < |GROUP + header|
    ensures line[i] == (GROUP + header)[i]
  {
    assert line[..|GROUP + header|][i] == line[i];
  }

  lemma HeaderIsNotBlank(line: string, header: string)
    requires IsHeaderLine(line, header)
    ensures !IsBlank(line) && StartsWith(line, GROUP) && !StartsWith(line, SECTION)
  {
    HeaderChar(line, header, 0);
    HeaderChar(line, header, 2);
    assert line[..4] == line[..|GROUP + header|][..4] == (GROUP + header)[..4] == GROUP;
    assert SECTION[2] == ' ' && line[..4][2] == line[2] == '#';
  }

  lemma HeaderTail(line: string, header: string, i: nat)
    requires IsHeaderLine(line, header) && |GROUP + header| <= i < |line|
    ensures IsSpace(line[i])
  {
    assert line[|GROUP + header|..][i - |GROUP + header|] == line[i];
  }

  lemma HeaderIsUnique(line: string, a: string, b: string)
    requires IsWord(a) && IsWord(b) && IsHeaderLine(line, a) && IsHeaderLine(line, b)
    ensures a == b
  {
    HeaderIsNoLonger(line, a, b);
    HeaderIsNoLonger(line, b, a);
    assert line[..4 + |a|] == GROUP + a && line[..4 + |b|] == GROUP + b;
    assert a == (GROUP + a)[4..] && b == (GROUP + b)[4..];
  }

  lemma HeaderIsNoLonger(line: string, a: string, b: string)
    requires IsWord(b) && IsHeaderLine(line, a) && IsHeaderLine(line, b)
    ensures |b| <= |a|
  {
    if |a| < |b| {
      HeaderChar(line, b, |GROUP + a|);
      HeaderTail(line, a, |GROUP + a|);
    }
  }

  lemma FirstHeaderIs(lines: seq<string>, header: string, k: nat)
    requires k < |lines| && IsHeaderLine(lines[k], header)
    requires forall j :: 0 <= j < k ==> !IsHeaderLine(lines[j], header)
    ensures FirstHeader(lines, header, 0) == Some(k)
  {
  }

  lemma SkipBlankIs(lines: seq<string>, from: nat, m: nat)
    requires from <= m <= |lines|
    requires forall j :: from <= j < m ==> IsBlank(lines[j])
    requires m < |lines| ==> !IsBlank(lines[m])
    ensures SkipBlank(lines, from) == m
  {
  }

  /* ---------- Entries beneath headers ---------- */

  /** The entries stand right under the first header of the category, blank lines aside. */
  predicate Beneath(lines: seq<string>, header: string, entries: seq<string>) {
    && Place(lines, header).Some?
    && Place(lines, header).value + |entries| <= |lines|
    && lines[Place(lines, header).value..][..|entries|] == entries
  }

  lemma PlaceIs(lines: seq<string>, header: string, k: nat, m: nat)
    requires k < m <= |lines| && IsHeaderLine(lines[k], header)
    requires forall j :: 0 <= j < k ==> !IsHeaderLine(lines[j], header)
    requires forall j :: k < j < m ==> IsBlank(lines[j])
    requires m < |lines| ==> !IsBlank(lines[m])
    ensures Place(lines, header) == Some(m)
  {
    FirstHeaderIs(lines, header, k);
    SkipBlankIs(lines, k + 1, m);
  }

  /** The lines of an insertion, by position. */
  lemma InsertedAt(lines: seq<string>, at: nat, block: seq<string>, j: nat)
    requires at <= |lines| && j < |InsertLines(lines, at, block)|
    ensures InsertLines(lines, at, block)[j] ==
            if j < at then lines[j] else if j == at then "" else if j <= at + |block| then block[j - at - 1]
              else lines[j - |block| - 1]
  {
  }

  lemma EmptyIsNoHeader(header: string)
    ensures !IsHeaderLine("", header)
  {
  }

  /** An insertion at the place of a header puts the block beneath it. */
  lemma InsertedIsBeneath(lines: seq<string>, header: string, block: seq<string>)
    requires Place(lines, header).Some?
    requires block != [] && !IsBlank(block[0])
    ensures Beneath(InsertLines(lines, Place(lines, header).value, block), header, block)
  {
    var at := Place(lines, header).value;
    var k := FirstHeader(lines, header, 0).value;
    var after := InsertLines(lines, at, block);
    forall j | 0 <= j <= at + 1 ensures after[j] == if j < at then lines[j] else if j == at then "" else block[0] {
      InsertedAt(lines, at, block, j);
    }
    PlaceIs(after, header, k, at + 1);
    assert after[at + 1..][..|block|] == block;
  }

  /** No header is added by an insertion. */
  lemma InsertionAddsNoHeader(lines: seq<string>, at: nat, block: seq<string>, header: string)
    requires at <= |lines| && HasNoHeader(block, header)
    requires FirstHeader(lines, header, 0).None?
    ensures FirstHeader(InsertLines(lines, at, block), header, 0).None?
  {
    EmptyIsNoHeader(header);
    var after := InsertLines(lines, at, block);
    forall j | 0 <= j < |after| ensures !IsHeaderLine(after[j], header) {
      InsertedAt(lines, at, block, j);
    }
  }

  /** Lines without the header, put in front, only shift its place. */
  lemma PlaceBehind(front: seq<string>, lines: seq<string>, header: string)
    requires HasNoHeader(front, header)
    ensures Place(front + lines, header) == Plus(Place(lines, header), |front|)
  {
    var all := front + lines;
    assert forall j :: 0 <= j < |lines| ==> all[|front| + j] == lines[j];
    if FirstHeader(lines, header, 0).Some? {
      var k, m := FirstHeader(lines, header, 0).value, Place(lines, header).value;
      forall j | |front| + k < j < |front| + m ensures IsBlank(all[j]) {
        assert all[j] == lines[j - |front|];
      }
      PlaceIs(all, header, |front| + k, |front| + m);
    } else {
      forall j | 0 <= j < |all| ensures !IsHeaderLine(all[j], header) {
        assert j >= |front| ==> all[j] == lines[j - |front|];
      }
    }
  }

  lemma PlaceInserted(lines: seq<string>, at: nat, block: seq<string>, other: string)
    requires at <= |lines| && HasNoHeader(block, other) && HasNoHeader(lines[..at], other)
    ensures Place(InsertLines(lines, at, block), other) == Plus(Place(lines, other), |block| + 1)
  {
    var head, tail := lines[..at], lines[at..];
    assert lines == head + tail;
    EmptyIsNoHeader(other);
    PlaceBehind(head, tail, other);
    PlaceBehind(head + ([""] + block), tail, other);
  }

  /** Where another category's place goes when lines are inserted before it. */
  lemma PlaceMovesDown(lines: seq<string>, at: nat, block: seq<string>, other: string)
    requires HasNoHeader(block, other) && Place(lines, other).Some?
    requires at <= FirstHeader(lines, other, 0).value
    ensures Place(InsertLines(lines, at, block), other) == Some(Place(lines, other).value + |block| + 1)
  {
    NoHeaderBefore(lines, other, at);
    PlaceInserted(lines, at, block, other);
  }

  lemma NoHeaderBefore(lines: seq<string>, header: string, at: nat)
    requires Place(lines, header).Some? && at <= FirstHeader(lines, header, 0).value
    ensures HasNoHeader(lines[..at], header)
  {
  }

  /** Another category's place stays when lines are inserted behind it. */
  lemma PlaceStays(lines: seq<string>, at: nat, block: seq<string>, other: string)
    requires at <= |lines| && Place(lines, other).Some? && Place(lines, other).value < at
    ensures Place(InsertLines(lines, at, block), other) == Place(lines, other)
  {
    var k, m := FirstHeader(lines, other, 0).value, Place(lines, other).value;
    var after := InsertLines(lines, at, block);
    assert forall j :: 0 <= j <= m ==> after[j] == lines[j];
    PlaceIs(after, other, k, m);
  }

  /** An insertion for one category leaves the entries beneath another category's header there. */
  lemma OthersStayBeneath(lines: seq<string>, header: string, block: seq<string>, other: string, entries: seq<string>)
    requires IsWord(header) && IsWord(other) && header != other
    requires Place(lines, header).Some? && HasNoHeader(block, other)
    requires entries != [] && !IsBlank(entries[0]) && HasNoHeader(entries, header) && Beneath(lines, other, entries)
    ensures Beneath(InsertLines(lines, Place(lines, header).value, block), other, entries)
  {
    var at, m := Place(lines, header).value, Place(lines, other).value;
    var k, k' := FirstHeader(lines, header, 0).value, FirstHeader(lines, other, 0).value;
    var after := InsertLines(lines, at, block);
    HeaderIsNotBlank(lines[k], header);
    HeaderIsNotBlank(lines[k'], other);
    if k == k' {
      HeaderIsUnique(lines[k], header, other);
    }
    forall j | m <= j < m + |entries| ensures !IsHeaderLine(lines[j], header) {
      assert lines[j] == lines[m..][..|entries|][j - m];
    }
    assert at <= k' || m + |entries| < at;
    if at <= k' {
      PlaceMovesDown(lines, at, block, other);
    } else {
      PlaceStays(lines, at, block, other);
    }
    EntriesMove(lines, at, block, m, entries);
  }

  /** Lines in front of or behind an insertion are still there. */
  lemma EntriesMove(lines: seq<string>, at: nat, block: seq<string>, m: nat, entries: seq<string>)
    requires at <= |lines| && m + |entries| <= |lines| && lines[m..][..|entries|] == entries
    requires at <= m || m + |entries| <= at
    ensures var m' := m + if at <= m then |block| + 1 else 0;
            && m' + |entries| <= |InsertLines(lines, at, block)|
            && InsertLines(lines, at, block)[m'..][..|entries|] == entries
  {
    var after := InsertLines(lines, at, block);
    if at <= m {
      assert after[m + |block| + 1..] == lines[m..];
    } else {
      assert after[m..][..|entries|] == lines[m..][..|entries|];
    }
  }

  /** The categories handled so far: beneath their header, or without one. */
  ghost predicate Settled(lines: seq<string>, group: Group) {
    group.entries != [] ==> Place(lines, group.header).None? || Beneath(lines, group.header, EntryLines(group))
  }

  lemma FoldLineSettles(lines: seq<string>, group: Group)
    requires IsFiled(group)
    ensures Settled(FoldLine(lines, group), group)
  {
    if group.entries != [] && Place(lines, group.header).Some? {
      EntryEdges(group);
      InsertedIsBeneath(lines, group.header, EntryLines(group));
    }
  }

  lemma FoldLineKeepsSettled(lines: seq<string>, group: Group, other: Group)
    requires IsFiled(group) && IsFiled(other) && IsApart(group, other) && IsApart(other, group)
    requires Settled(lines, other)
    ensures Settled(FoldLine(lines, group), other)
    ensures other.entries != [] ==>
              (Place(lines, other.header).None? <==> Place(FoldLine(lines, group), other.header).None?)
  {
    if group.entries != [] && other.entries != [] && Place(lines, group.header).Some? {
      if Place(lines, other.header).None? {
        InsertionAddsNoHeader(lines, Place(lines, group.header).value, EntryLines(group), other.header);
      } else {
        EntryEdges(other);
        OthersStayBeneath(lines, group.header, EntryLines(group), other.header, EntryLines(other));
      }
    }
  }

  lemma {:induction false} FoldLinesSettle(lines: seq<string>, groups: seq<Group>, i: nat)
    requires AllTame(groups) && i < |groups|
    ensures Settled(FoldLines(lines, groups), groups[i])
    ensures groups[i].entries != [] ==>
              (Place(FoldLines(lines, groups), groups[i].header).None? <==>
                Place(FoldLines(lines, groups[..i]), groups[i].header).None?)
  {
    var init := groups[..|groups| - 1];
    if i == |groups| - 1 {
      FoldLineSettles(FoldLines(lines, init), groups[i]);
      if groups[i].entries != [] && Place(FoldLines(lines, init), groups[i].header).Some? {
        EntryEdges(groups[i]);
        InsertedIsBeneath(FoldLines(lines, init), groups[i].header, EntryLines(groups[i]));
      }
    } else {
      assert init[..i] == groups[..i] && init[i] == groups[i];
      FoldLinesSettle(lines, init, i);
      FoldLineKeepsSettled(FoldLines(lines, init), groups[|groups| - 1], groups[i]);
    }
  }

  /* ---------- The new groups on top ---------- */

  function GroupLines(group: Group): (lines: seq<string>)
    ensures lines != []
  {
    [GROUP + group.header, ""] + EntryLines(group)
  }

  function StackLines(groups: seq<Group>): seq<string> {
    if groups == [] then []
    else if |groups| == 1 then GroupLines(groups[0])
    else GroupLines(groups[0]) + ([""] + StackLines(groups[1..]))
  }

  function PreambleLines(groups: seq<Group>): seq<string> {
    if groups == [] then [] else ["", ""] + StackLines(groups)
  }

  lemma {:induction false} TextsAre(groups: seq<Group>)
    ensures forall i :: 0 <= i < |groups| ==> Texts(groups)[i] == NewGroup(groups[i])
  {
    if groups != [] {
      TextsAre(groups[..|groups| - 1]);
    }
  }

  lemma TextsTail(groups: seq<Group>)
    requires groups != []
    ensures Texts(groups) == [NewGroup(groups[0])] + Texts(groups[1..])
  {
    TextsAre(groups);
    TextsAre(groups[1..]);
  }

  lemma NewGroupByLine(group: Group)
    requires IsWord(group.header)
    ensures NewGroup(group) == Unlines(GroupLines(group)) && AreLines(GroupLines(group))
  {
    WordIsLine(group.header);
    UnlinesOfLines(Joined(group));
    var entries := EntryLines(group);
    UnlinesCons("", entries);
    UnlinesCons(GROUP + group.header, [""] + entries);
    assert GroupLines(group) == [GROUP + group.header] + ([""] + entries);
    assert GROUP + group.header + "\n" + ("" + "\n" + Joined(group)) == GROUP + group.header + "\n\n" + Joined(group);
  }

  lemma {:induction false} StackByLine(groups: seq<Group>)
    requires groups != [] && HasWords(groups)
    ensures StackLines(groups) != [] && AreLines(StackLines(groups))
    ensures Join("\n\n", Texts(groups)) == Unlines(StackLines(groups))
  {
    NewGroupByLine(groups[0]);
    TextsTail(groups);
    if |groups| == 1 {
      assert Texts(groups) == [NewGroup(groups[0])];
    } else {
      var rest := groups[1..];
      StackByLine(rest);
      UnlinesCons("", StackLines(rest));
      UnlinesConcat(GroupLines(groups[0]), [""] + StackLines(rest));
      assert Texts(groups)[1..] == Texts(rest);
      assert NewGroup(groups[0]) + "\n\n" + Unlines(StackLines(rest)) ==
             NewGroup(groups[0]) + "\n" + ("" + "\n" + Unlines(StackLines(rest)));
    }
  }

  /** The whole new body, line by line. */
  lemma FoldBodyByLine(body: string, groups: seq<Group>)
    requires HasWords(groups) && HasWords(NewGroups(body, groups))
    ensures Lines(FoldBody(body, groups)) == PreambleLines(NewGroups(body, groups)) + FoldLines(Lines(body), groups)
  {
    var lines := FoldLines(Lines(body), groups);
    var added := NewGroups(body, groups);
    FoldByLine(body, groups);
    if added == [] {
      assert [] + lines == lines && "" + Unlines(lines) == Unlines(lines);
      LinesOfUnlines(lines);
    } else {
      StackByLine(added);
      StackOnTop(StackLines(added), lines);
    }
  }

  lemma StackOnTop(stack: seq<string>, lines: seq<string>)
    requires stack != [] && lines != [] && AreLines(stack) && AreLines(lines)
    ensures Lines("\n\n" + Unlines(stack) + "\n" + Unlines(lines)) == ["", ""] + stack + lines
  {
    var all := ["", ""] + (stack + lines);
    assert all == ["", ""] + stack + lines;
    StackText(stack, lines);
    assert AreLines(all) by { assert IsLine(""); }
    LinesOfUnlines(all);
  }

  lemma StackText(stack: seq<string>, lines: seq<string>)
    requires stack != [] && lines != []
    ensures Unlines(["", ""] + (stack + lines)) == "\n\n" + Unlines(stack) + "\n" + Unlines(lines)
  {
    UnlinesConcat(stack, lines);
    TwoEmptyLines(stack + lines);
    Regroup("\n\n", Unlines(stack), "\n", Unlines(lines), "");
  }

  lemma TwoEmptyLines(lines: seq<string>)
    requires lines != []
    ensures Unlines(["", ""] + lines) == "\n\n" + Unlines(lines)
  {
    UnlinesCons("", lines);
    UnlinesCons("", [""] + lines);
    assert [""] + ([""] + lines) == ["", ""] + lines;
    assert "" + "\n" + ("" + "\n" + Unlines(lines)) == "\n\n" + Unlines(lines);
  }

  /** The category has entries, and no place when its turn comes. */
  predicate IsNew(body: string, groups: seq<Group>, i: nat)
    requires i < |groups|
  {
    groups[i].entries != [] && Place(FoldLines(Lines(body), groups[..i]), groups[i].header).None?
  }

  lemma NewGroupsStep(body: string, groups: seq<Group>, i: nat)
    requires HasWords(groups) && i < |groups|
    ensures NewGroups(body, groups[..i + 1]) ==
            NewGroups(body, groups[..i]) + (if IsNew(body, groups, i) then [groups[i]] else [])
  {
    TakeOne(groups, i);
    FoldByLine(body, groups[..i]);
    FindHeaderByLine(FoldLines(Lines(body), groups[..i]), groups[i].header, true);
  }

  lemma {:induction false} NewIsAdded(body: string, groups: seq<Group>, upto: nat, i: nat) returns (j: nat)
    requires HasWords(groups) && i < upto <= |groups| && IsNew(body, groups, i)
    ensures j < |NewGroups(body, groups[..upto])| && NewGroups(body, groups[..upto])[j] == groups[i]
  {
    NewGroupsStep(body, groups, upto - 1);
    if i < upto - 1 {
      j := NewIsAdded(body, groups, upto - 1, i);
    } else {
      j := |NewGroups(body, groups[..upto - 1])|;
    }
  }

  lemma {:induction false} AddedIsNew(body: string, groups: seq<Group>, upto: nat, j: nat) returns (i: nat)
    requires HasWords(groups) && upto <= |groups| && j < |NewGroups(body, groups[..upto])|
    ensures i < upto && groups[i] == NewGroups(body, groups[..upto])[j] && IsNew(body, groups, i)
  {
    NewGroupsStep(body, groups, upto - 1);
    if j < |NewGroups(body, groups[..upto - 1])| {
      i := AddedIsNew(body, groups, upto - 1, j);
    } else {
      i := upto - 1;
    }
  }

  lemma {:induction false} NewGroupsAreTame(body: string, groups: seq<Group>, upto: nat)
    requires AllTame(groups) && upto <= |groups|
    ensures AllTame(NewGroups(body, groups[..upto]))
  {
    if upto > 0 {
      NewGroupsAreTame(body, groups, upto - 1);
      NewGroupsStep(body, groups, upto - 1);
      var before := NewGroups(body, groups[..upto - 1]);
      forall j | 0 <= j < |before|
        ensures IsApart(before[j], groups[upto - 1]) && IsApart(groups[upto - 1], before[j])
      {
        var i := AddedIsNew(body, groups, upto - 1, j);
      }
    }
  }

  lemma GroupHasNoHeader(group: Group, header: string)
    requires IsFiled(group) && IsWord(header) && group.header != header && HasNoHeader(EntryLines(group), header)
    ensures HasNoHeader(GroupLines(group), header)
  {
    EmptyIsNoHeader(header);
    if IsHeaderLine(GROUP + group.header, header) {
      assert IsHeaderLine(GROUP + group.header, group.header) by {
        assert (GROUP + group.header)[|GROUP + group.header|..] == "";
      }
      HeaderIsUnique(GROUP + group.header, group.header, header);
    }
  }

  lemma {:induction false} StackHasNoHeader(groups: seq<Group>, other: Group)
    requires IsFiled(other) && other.entries != []
    requires forall i :: 0 <= i < |groups| ==> IsFiled(groups[i]) && IsApart(groups[i], other)
    ensures HasNoHeader(StackLines(groups), other.header)
  {
    if groups != [] {
      GroupHasNoHeader(groups[0], other.header);
      StackHasNoHeader(groups[1..], other);
      EmptyIsNoHeader(other.header);
    }
  }

  lemma PreambleHasNoHeader(groups: seq<Group>, other: Group)
    requires IsFiled(other) && other.entries != []
    requires forall i :: 0 <= i < |groups| ==> IsFiled(groups[i]) && IsApart(groups[i], other)
    ensures HasNoHeader(PreambleLines(groups), other.header)
  {
    StackHasNoHeader(groups, other);
    EmptyIsNoHeader(other.header);
  }

  /** The i-th new group stands in the stack, and its header nowhere before. */
  lemma {:induction false} StackSplits(groups: seq<Group>, i: nat) returns (front: seq<string>, back: seq<string>)
    requires AllTame(groups) && i < |groups| && groups[i].entries != []
    ensures StackLines(groups) == front + GroupLines(groups[i]) + back
    ensures HasNoHeader(front, groups[i].header)
  {
    if i == 0 {
      front := [];
      back := if |groups| == 1 then [] else [""] + StackLines(groups[1..]);
    } else {
      var f, b := StackSplits(groups[1..], i - 1);
      Regroup(GroupLines(groups[0]), [""], f, GroupLines(groups[i]), b);
      front, back := GroupLines(groups[0]) + ([""] + f), b;
      GroupHasNoHeader(groups[0], groups[i].header);
      EmptyIsNoHeader(groups[i].header);
    }
  }

  lemma GroupStartsWithEntries(group: Group, back: seq<string>)
    requires IsFiled(group) && group.entries != []
    ensures Place(GroupLines(group) + back, group.header) == Some(2)
  {
    var own := GroupLines(group) + back;
    EntryEdges(group);
    assert IsHeaderLine(own[0], group.header) by {
      assert (GROUP + group.header)[|GROUP + group.header|..] == "";
    }
    assert own[2] == EntryLines(group)[0] && own[1] == "";
    PlaceIs(own, group.header, 0, 2);
  }

  lemma GroupIsBeneath(front: seq<string>, group: Group, back: seq<string>)
    requires IsFiled(group) && group.entries != [] && HasNoHeader(front, group.header)
    ensures Beneath(front + GroupLines(group) + back, group.header, EntryLines(group))
  {
    var own := GroupLines(group) + back;
    var all := front + GroupLines(group) + back;
    GroupStartsWithEntries(group, back);
    PlaceBehind(front, own, group.header);
    assert all == front + own;
    assert all[|front| + 2..] == own[2..];
    assert own[2..][..|EntryLines(group)|] == EntryLines(group);
  }

  /**
   Wherever a category's entries went, in the folded text they stand in order right under
   the first header of that category.
   */
  lemma EntriesAreBeneathTheirHeader(body: string, groups: seq<Group>, i: nat)
    requires AllTame(groups) && i < |groups| && groups[i].entries != []
    ensures Beneath(Lines(FoldBody(body, groups)), groups[i].header, EntryLines(groups[i]))
  {
    TakeAll(groups);
    NewGroupsAreTame(body, groups, |groups|);
    FoldBodyByLine(body, groups);
    FoldLinesSettle(Lines(body), groups, i);
    var added, lines := NewGroups(body, groups), FoldLines(Lines(body), groups);
    if IsNew(body, groups, i) {
      var j := NewIsAdded(body, groups, |groups|, i);
      AddedIsBeneath(added, j, lines);
    } else {
      OthersAreAdded(body, groups, i);
      ExistingIsBeneath(added, groups[i], lines);
    }
  }

  lemma OthersAreAdded(body: string, groups: seq<Group>, i: nat)
    requires AllTame(groups) && i < |groups| && !IsNew(body, groups, i)
    ensures forall j :: 0 <= j < |NewGroups(body, groups)| ==>
              IsFiled(NewGroups(body, groups)[j]) && IsApart(NewGroups(body, groups)[j], groups[i])
  {
    TakeAll(groups);
    forall j | 0 <= j < |NewGroups(body, groups)|
      ensures IsFiled(NewGroups(body, groups)[j]) && IsApart(NewGroups(body, groups)[j], groups[i])
    {
      var k := AddedIsNew(body, groups, |groups|, j);
      assert groups[k].header != groups[i].header;
    }
  }

  lemma AddedIsBeneath(added: seq<Group>, j: nat, lines: seq<string>)
    requires AllTame(added) && j < |added| && added[j].entries != []
    ensures Beneath(PreambleLines(added) + lines, added[j].header, EntryLines(added[j]))
  {
    var group := added[j];
    var front, back := StackSplits(added, j);
    EmptyIsNoHeader(group.header);
    GroupIsBeneath(["", ""] + front, group, back + lines);
    Regroup(["", ""], front, GroupLines(group), back, lines);
  }

  lemma ExistingIsBeneath(added: seq<Group>, group: Group, lines: seq<string>)
    requires IsFiled(group) && group.entries != [] && Beneath(lines, group.header, EntryLines(group))
    requires forall j :: 0 <= j < |added| ==> IsFiled(added[j]) && IsApart(added[j], group)
    ensures Beneath(PreambleLines(added) + lines, group.header, EntryLines(group))
  {
    PreambleHasNoHeader(added, group);
    PlaceBehind(PreambleLines(added), lines, group.header);
    var m := Place(lines, group.header).value;
    assert (PreambleLines(added) + lines)[|PreambleLines(added)| + m..] == lines[m..];
  }
}
