/**
 `scripts/collate_changelog.py`: folding changelog fragments into the Unreleased
 section. Searches are the script's regular expressions, read character by character.
 */
module Changelog {
  import opened Wrappers
  import opened Text
  import opened Sequences

  const UNRELEASED := "## [Unreleased]"
  const SECTION := "## ["
  const GROUP := "### "

  /** One category: its header text and the bodies of its fragments, in order. */
  datatype Group = Group(header: string, entries: seq<string>)

  /** Keep a Changelog category order. */
  const CATEGORIES: seq<string> := ["Added", "Changed", "Deprecated", "Removed", "Fixed", "Security"]

  /* ---------- Regular expressions ---------- */

  /**
   `^prefix` in MULTILINE mode: the offset of the first line start where `prefix` stands; `bol`
   says whether `text` is at one.
   */
  function FindPrefix(text: string, prefix: string, bol: bool): (r: Option<nat>)
    ensures r.Some? ==> r.value <= |text|
  {
    if bol && StartsWith(text, prefix) then Some(0)
    else if text == "" then None
    else
      match FindPrefix(text[1..], prefix, text[0] == '\n')
      case None => None
      case Some(i) => Some(i + 1)
  }

  /** `[^\n]*$`: the offset of the end of the current line. */
  function LineEnd(text: string): (r: nat)
    ensures r <= |text|
  {
    if text == "" || text[0] == '\n' then 0 else 1 + LineEnd(text[1..])
  }

  /** `\s*$`: as much white space as possible, backing up to the last line end in it. */
  function SpacesThenEol(text: string): (r: Option<nat>)
    ensures r.Some? ==> r.value <= |text|
  {
    var longer := if text != "" && IsSpace(text[0]) then SpacesThenEol(text[1..]) else None;
    if longer.Some? then Some(longer.value + 1)
    else if text == "" || text[0] == '\n' then Some(0)
    else None
  }

  /** `^### header\s*$`: the offset of the end of the first match. */
  function FindHeader(text: string, header: string, bol: bool): (r: Option<nat>)
    ensures r.Some? ==> r.value <= |text|
  {
    var line := GROUP + header;
    if bol && StartsWith(text, line) && SpacesThenEol(text[|line|..]).Some? then
      Some(|line| + SpacesThenEol(text[|line|..]).value)
    else if text == "" then None
    else
      match FindHeader(text[1..], header, text[0] == '\n')
      case None => None
      case Some(i) => Some(i + 1)
  }

  /* ---------- Splitting and folding ---------- */

  /** Where the section ends in the text behind its header line: at the next `## [` line, or at the end. */
  function SectionEnd(rest: string): (n: nat)
    ensures n <= |rest|
  {
    match FindPrefix(rest, SECTION, false)
    case None => |rest|
    case Some(n) => n
  }

  /** Where the Unreleased header line ends. */
  function HeaderLineEnd(text: string): (r: Option<nat>)
    ensures r.Some? ==> r.value <= |text|
  {
    match FindPrefix(text, UNRELEASED, true)
    case None => None
    case Some(h) => Some(h + LineEnd(text[h..]))
  }

  /** `_split_unreleased`; None where it raises ValueError. */
  function SplitUnreleased(text: string): Option<(string, string, string)> {
    match HeaderLineEnd(text)
    case None => None
    case Some(start) =>
      var rest := text[start..];
      Some((text[..start], rest[..SectionEnd(rest)], rest[SectionEnd(rest)..]))
  }

  function Joined(group: Group): string {
    Join("\n", group.entries)
  }

  function NewGroup(group: Group): string {
    GROUP + group.header + "\n\n" + Joined(group)
  }

  /** What one edit does to the body. */
  datatype Edit = Edit(at: nat, text: string)

  function Insert(body: string, edit: Edit): string
    requires edit.at <= |body|
  {
    body[..edit.at] + edit.text + body[edit.at..]
  }

  /** The edit for one category, if its header is in the body already. */
  function EditFor(body: string, group: Group): (r: Option<Edit>)
    ensures r.Some? ==> r.value.at <= |body|
  {
    if group.entries == [] then None
    else
      match FindHeader(body, group.header, true)
      case None => None
      case Some(at) => Some(Edit(at, "\n\n" + Joined(group)))
  }

  /**
   The body after the categories that have a header in it are dealt with, each search seeing the
   earlier insertions.
   */
  function FoldExisting(body: string, groups: seq<Group>): string {
    if groups == [] then body
    else
      var before := FoldExisting(body, groups[..|groups| - 1]);
      match EditFor(before, groups[|groups| - 1])
      case None => before
      case Some(edit) => Insert(before, edit)
  }

  /** The groups for categories that have no header in the body when their turn comes. */
  function NewGroups(body: string, groups: seq<Group>): seq<Group> {
    if groups == [] then []
    else
      var last := groups[|groups| - 1];
      NewGroups(body, groups[..|groups| - 1]) +
      (if last.entries != [] && EditFor(FoldExisting(body, groups[..|groups| - 1]), last).None? then [last] else [])
  }

  function Texts(groups: seq<Group>): (r: seq<string>)
    ensures |r| == |groups|
  {
    if groups == [] then [] else Texts(groups[..|groups| - 1]) + [NewGroup(groups[|groups| - 1])]
  }

  /** The text put on top of the body for the new groups. */
  function Preamble(newGroups: seq<Group>): string {
    if newGroups == [] then "" else "\n\n" + Join("\n\n", Texts(newGroups)) + "\n"
  }

  function FoldBody(body: string, groups: seq<Group>): string {
    Preamble(NewGroups(body, groups)) + FoldExisting(body, groups)
  }

  function TotalEntries(groups: seq<Group>): nat {
    if groups == [] then 0 else TotalEntries(groups[..|groups| - 1]) + |groups[|groups| - 1].entries|
  }

  /** One turn of the loop over the categories. */
  lemma FoldStep(body: string, groups: seq<Group>, i: nat)
    requires i < |groups|
    ensures var before := FoldExisting(body, groups[..i]);
            var edit := EditFor(before, groups[i]);
            && FoldExisting(body, groups[..i + 1]) == (if edit.Some? then Insert(before, edit.value) else before)
            && Texts(NewGroups(body, groups[..i + 1])) ==
                 Texts(NewGroups(body, groups[..i])) +
                   (if groups[i].entries != [] && edit.None? then [NewGroup(groups[i])] else [])
            && TotalEntries(groups[..i + 1]) == TotalEntries(groups[..i]) + |groups[i].entries|
  {
    TakeOne(groups, i);
    var before := NewGroups(body, groups[..i]);
    assert (before + [groups[i]])[..|before|] == before;
    assert before + [] == before;
  }

  /** The file: its text changes only when a fold succeeds. */
  class File {
    var text: string

    constructor (text: string)
      ensures this.text == text
    {
      this.text := text;
    }

    /** `apply_to_changelog`; None where the split raises. */
    method Apply(groups: seq<Group>) returns (count: Option<nat>)
      modifies this
      ensures SplitUnreleased(old(text)).None? ==> count == None && text == old(text)
      ensures SplitUnreleased(old(text)).Some? ==>
                var (before, body, after) := SplitUnreleased(old(text)).value;
                && count == Some(TotalEntries(groups))
                && text == before + FoldBody(body, groups) + after
    {
      var parts := SplitUnreleased(text);
      if parts.None? {
        return None;
      }
      var (before, body, after) := parts.value;
      var newGroups := [];
      var total := 0;
      for i := 0 to |groups|
        invariant body == FoldExisting(parts.value.1, groups[..i])
        invariant newGroups == Texts(NewGroups(parts.value.1, groups[..i]))
        invariant total == TotalEntries(groups[..i])
      {
        FoldStep(parts.value.1, groups, i);
        var group := groups[i];
        total := total + |group.entries|;
        if group.entries != [] {
          var joined := Joined(group);
          var existing := FindHeader(body, group.header, true);
          if existing.Some? {
            var insertAt := existing.value;
            body := body[..insertAt] + ("\n\n" + joined) + body[insertAt..];
          } else {
            newGroups := newGroups + [GROUP + group.header + "\n\n" + joined];
          }
        }
      }
      TakeAll(groups);
      ghost var written := NewGroups(parts.value.1, groups);
      assert newGroups == Texts(written) && (newGroups == [] <==> written == []);
      if newGroups != [] {
        body := "\n\n" + Join("\n\n", newGroups) + "\n" + body;
      }
      assert body == FoldBody(parts.value.1, groups) by {
        assert "" + FoldExisting(parts.value.1, groups) == FoldExisting(parts.value.1, groups);
      }
      text := before + body + after;
      count := Some(total);
    }
  }

  /* ---------- Nothing is lost ---------- */

  /** The edits made inside the body, in the order they are made. */
  function Edits(body: string, groups: seq<Group>): seq<Edit> {
    if groups == [] then []
    else
      var before := groups[..|groups| - 1];
      match EditFor(FoldExisting(body, before), groups[|groups| - 1])
      case None => Edits(body, before)
      case Some(edit) => Edits(body, before) + [edit]
  }

  /** Delete the inserted blocks again, latest first, looking only at where and how long they are. */
  function Undo(body: string, edits: seq<Edit>): string
    decreases |edits|
  {
    if edits == [] then body
    else
      var last := edits[|edits| - 1];
      if last.at + |last.text| <= |body|
      then Undo(body[..last.at] + body[last.at + |last.text|..], edits[..|edits| - 1])
      else body
  }

  /** Every category with entries is written exactly once: as one inserted block or as one new group. */
  function Written(groups: seq<Group>): nat {
    if groups == [] then 0
    else Written(groups[..|groups| - 1]) + (if groups[|groups| - 1].entries == [] then 0 else 1)
  }

  lemma {:induction false} EditsAreUndone(body: string, groups: seq<Group>)
    ensures Undo(FoldExisting(body, groups), Edits(body, groups)) == body
    ensures |Edits(body, groups)| + |NewGroups(body, groups)| == Written(groups)
  {
    if groups != [] {
      var init := groups[..|groups| - 1];
      EditsAreUndone(body, init);
      var before := FoldExisting(body, init);
      var edit := EditFor(before, groups[|groups| - 1]);
      if edit.Some? {
        var after := Insert(before, edit.value);
        var (at, n) := (edit.value.at, |edit.value.text|);
        assert after[..at] == before[..at] && after[at + n..] == before[at..];
        assert before[..at] + before[at..] == before;
        var edits := Edits(body, init) + [edit.value];
        assert edits[..|edits| - 1] == Edits(body, init);
      }
    }
  }

  /** Deleting the blocks that the fold inserted restores the body, byte for byte. */
  lemma FoldIsLossless(body: string, groups: seq<Group>)
    ensures var top := |Preamble(NewGroups(body, groups))|;
            && top <= |FoldBody(body, groups)|
            && Undo(FoldBody(body, groups)[top..], Edits(body, groups)) == body
  {
    EditsAreUndone(body, groups);
    var top := Preamble(NewGroups(body, groups));
    assert (top + FoldExisting(body, groups))[|top|..] == FoldExisting(body, groups);
  }
}
