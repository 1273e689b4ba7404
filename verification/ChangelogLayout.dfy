/**
 The fold read line by line. The script edits characters at the end of a regular
 expression match; here that is shown to put lines before the first non-blank line
 under a header, which is what its promises about layout are proved from.
 */
module ChangelogLayout {
  import opened Wrappers
  import opened Text
  import opened Changelog

  /* ---------- Headers as lines ---------- */

  predicate IsHeaderLine(line: string, header: string) {
    StartsWith(line, GROUP + header) && IsBlank(line[|GROUP + header|..])
  }

  /** The first header line at or after `from`. */
  function FirstHeader(lines: seq<string>, header: string, from: nat): (r: Option<nat>)
    ensures r.Some? ==> from <= r.value < |lines| && IsHeaderLine(lines[r.value], header)
    ensures r.Some? ==> forall j :: from <= j < r.value ==> !IsHeaderLine(lines[j], header)
    ensures r.None? ==> forall j :: from <= j < |lines| ==> !IsHeaderLine(lines[j], header)
    decreases |lines| - from
  {
    if from >= |lines| then None
    else if IsHeaderLine(lines[from], header) then Some(from)
    else FirstHeader(lines, header, from + 1)
  }

  /** The first non-blank line at or after `from`. */
  function SkipBlank(lines: seq<string>, from: nat): (r: nat)
    requires from <= |lines|
    ensures from <= r <= |lines|
    ensures forall j :: from <= j < r ==> IsBlank(lines[j])
    ensures r < |lines| ==> !IsBlank(lines[r])
    decreases |lines| - from
  {
    if from == |lines| || !IsBlank(lines[from]) then from else SkipBlank(lines, from + 1)
  }

  lemma {:induction false} SkipBlankShift(a: seq<string>, b: seq<string>, from: nat)
    requires |a| > 0 && |b| + 1 == |a| && a[1..] == b && from <= |b|
    ensures SkipBlank(a, from + 1) == SkipBlank(b, from) + 1
    decreases |b| - from
  {
    if from < |b| {
      assert a[from + 1] == b[from];
      SkipBlankShift(a, b, from + 1);
    }
  }

  lemma {:induction false} FirstHeaderShift(a: seq<string>, b: seq<string>, header: string, from: nat)
    requires |a| > 0 && |b| + 1 == |a| && a[1..] == b && from <= |b|
    ensures FirstHeader(a, header, from + 1) ==
            match FirstHeader(b, header, from) case None => None case Some(k) => Some(k + 1)
    decreases |b| - from
  {
    if from < |b| {
      assert a[from + 1] == b[from];
      FirstHeaderShift(a, b, header, from + 1);
    }
  }

  lemma UnlinesCons(first: string, rest: seq<string>)
    ensures rest != [] ==> Unlines([first] + rest) == first + "\n" + Unlines(rest)
    ensures Unlines([first]) == first
  {
    assert ([first] + rest)[1..] == rest;
  }

  /** Dropping a prefix of the first line. */
  lemma UnlinesDrop(lines: seq<string>, n: nat)
    requires lines != [] && n <= |lines[0]|
    ensures n <= |Unlines(lines)| && Unlines(lines)[n..] == Unlines([lines[0][n..]] + lines[1..])
    ensures Unlines(lines)[..n] == lines[0][..n]
  {
    if |lines| == 1 {
      assert lines == [lines[0]] && [lines[0][n..]] + lines[1..] == [lines[0][n..]];
    } else {
      assert lines == [lines[0]] + lines[1..];
      UnlinesCons(lines[0], lines[1..]);
      UnlinesCons(lines[0][n..], lines[1..]);
    }
  }

  /** Taking the first character off a text of lines. */
  lemma UnlinesTail(lines: seq<string>)
    requires lines != [] && Unlines(lines) != ""
    ensures lines[0] == "" ==> |lines| > 1 && Unlines(lines)[0] == '\n' && Unlines(lines)[1..] == Unlines(lines[1..])
    ensures lines[0] != "" ==>
              Unlines(lines)[0] == lines[0][0] && Unlines(lines)[1..] == Unlines([lines[0][1..]] + lines[1..])
  {
    if lines[0] != "" {
      UnlinesDrop(lines, 1);
      assert Unlines(lines)[..1][0] == lines[0][..1][0];
    } else if |lines| > 1 {
      assert lines == [lines[0]] + lines[1..];
      UnlinesCons(lines[0], lines[1..]);
      assert lines[0] + "\n" + Unlines(lines[1..]) == "\n" + Unlines(lines[1..]);
    }
  }

  /** A one-line prefix of a text is a prefix of its first line. */
  lemma PrefixIsInFirstLine(lines: seq<string>, prefix: string)
    requires lines != [] && IsLine(prefix)
    ensures StartsWith(Unlines(lines), prefix) <==> StartsWith(lines[0], prefix)
  {
    var text := Unlines(lines);
    UnlinesDrop(lines, |lines[0]|);
    if |lines| == 1 {
      assert lines == [lines[0]];
    } else {
      assert lines == [lines[0]] + lines[1..];
      UnlinesCons(lines[0], lines[1..]);
      if |lines[0]| < |prefix| {
        var k := |lines[0]|;
        assert text[k] == '\n' && prefix[k] in prefix;
        assert |prefix| <= |text| ==> text[..|prefix|][k] != prefix[k];
      } else {
        assert text[..|prefix|] == lines[0][..|prefix|];
      }
    }
  }

  /* ---------- The searches, line by line ---------- */

  /** How much text the first `n` lines take. */
  function Length(lines: seq<string>, n: nat): nat
    requires n <= |lines|
  {
    |Unlines(lines[..n])|
  }

  lemma LengthCons(lines: seq<string>, n: nat)
    requires 1 < n <= |lines|
    ensures Length(lines, n) == |lines[0]| + 1 + Length(lines[1..], n - 1)
  {
    assert lines[..n] == [lines[0]] + lines[1..][..n - 1];
    UnlinesCons(lines[0], lines[1..][..n - 1]);
  }

  lemma LengthOne(lines: seq<string>)
    requires lines != []
    ensures Length(lines, 1) == |lines[0]|
  {
    assert lines[..1] == [lines[0]];
  }

  /** The length of the first n lines when the first line loses `cut` characters. */
  lemma LengthCut(lines: seq<string>, cut: nat, n: nat)
    requires 0 < n <= |lines| && cut <= |lines[0]|
    ensures Length([lines[0][cut..]] + lines[1..], n) + cut == Length(lines, n)
  {
    var shorter := [lines[0][cut..]] + lines[1..];
    if n == 1 {
      LengthOne(lines);
      LengthOne(shorter);
    } else {
      LengthCons(lines, n);
      LengthCons(shorter, n);
      assert shorter[1..] == lines[1..];
    }
  }

  /** `\s*$` from a blank rest of a line runs to the end of the last blank line under it. */
  lemma {:induction false} SpacesByLine(lines: seq<string>)
    requires lines != [] && AreLines(lines)
    ensures SpacesThenEol(Unlines(lines)) ==
            if IsBlank(lines[0]) then Some(Length(lines, SkipBlank(lines, 1))) else None
    decreases |Unlines(lines)|
  {
    var text := Unlines(lines);
    if text == "" {
      SpacesOfNothing(lines);
    } else if lines[0] == "" {
      UnlinesTail(lines);
      var rest := lines[1..];
      SpacesByLine(rest);
      if IsBlank(rest[0]) {
        SkipBlankShift(lines, rest, 1);
        assert SkipBlank(lines, 1) == SkipBlank(lines, 2);
        LengthCons(lines, SkipBlank(lines, 1));
      } else {
        LengthOne(lines);
      }
    } else {
      UnlinesTail(lines);
      var shorter := [lines[0][1..]] + lines[1..];
      CutLinesAreLines(lines, 1);
      SpacesByLine(shorter);
      SkipBlankSameTail(lines, shorter, 1);
      LengthCut(lines, 1, SkipBlank(lines, 1));
      assert lines[0] == [lines[0][0]] + lines[0][1..];
      assert text[0] != '\n' by { assert text[0] == lines[0][0] && lines[0][0] in lines[0]; }
      BlankCons(lines[0]);
    }
  }

  lemma BlankCons(line: string)
    requires line != ""
    ensures IsBlank(line) <==> IsSpace(line[0]) && IsBlank(line[1..])
  {
    assert IsBlank(line) ==> forall i :: 0 <= i < |line[1..]| ==> IsSpace(line[i + 1]) && line[1..][i] == line[i + 1];
    if IsSpace(line[0]) && IsBlank(line[1..]) {
      assert forall i :: 0 < i < |line| ==> line[i] == line[1..][i - 1];
    }
  }

  lemma SpacesOfNothing(lines: seq<string>)
    requires lines != [] && Unlines(lines) == ""
    ensures lines == [""] && SkipBlank(lines, 1) == 1 && Length(lines, 1) == 0
  {
    SeveralLinesAreSomething(lines);
  }

  lemma SeveralLinesAreSomething(lines: seq<string>)
    ensures |lines| > 1 ==> Unlines(lines) != ""
  {
    if |lines| > 1 {
      assert Unlines(lines)[|lines[0]|] == '\n';
    }
  }

  lemma CutLinesAreLines(lines: seq<string>, n: nat)
    requires lines != [] && AreLines(lines) && n <= |lines[0]|
    ensures AreLines([lines[0][n..]] + lines[1..])
  {
    forall i | 0 <= i < |lines| ensures IsLine(([lines[0][n..]] + lines[1..])[i]) {
      assert IsLine(lines[i]);
      if i == 0 {
        assert forall c :: c in lines[0][n..] ==> c in lines[0];
      }
    }
  }

  lemma {:induction false} SkipBlankSameTail(a: seq<string>, b: seq<string>, from: nat)
    requires |a| == |b| && 0 < from <= |a| && a[1..] == b[1..]
    ensures SkipBlank(a, from) == SkipBlank(b, from)
    decreases |a| - from
  {
    if from < |a| {
      assert a[from] == a[1..][from - 1] && b[from] == b[1..][from - 1];
      SkipBlankSameTail(a, b, from + 1);
    }
  }

  lemma {:induction false} FirstHeaderSameTail(a: seq<string>, b: seq<string>, header: string, from: nat)
    requires |a| == |b| && 0 < from && a != [] && a[1..] == b[1..]
    ensures FirstHeader(a, header, from) == FirstHeader(b, header, from)
    decreases |a| - from
  {
    if from < |a| {
      assert a[from] == a[1..][from - 1] && b[from] == b[1..][from - 1];
      FirstHeaderSameTail(a, b, header, from + 1);
    }
  }

  /** A header has no white space in it, so one line cannot be the header of two categories. */
  predicate IsWord(header: string) {
    forall i :: 0 <= i < |header| ==> !IsSpace(header[i])
  }

  lemma WordIsLine(header: string)
    requires IsWord(header)
    ensures IsLine(GROUP + header)
  {
    assert IsSpace('\n');
  }

  /** The end of the match is the end of the line before the first non-blank line under the first header line. */
  function HeaderEnd(lines: seq<string>, header: string, from: nat): Option<nat> {
    match FirstHeader(lines, header, from)
    case None => None
    case Some(k) => Some(Length(lines, SkipBlank(lines, k + 1)))
  }

  lemma {:induction false} FindHeaderByLine(lines: seq<string>, header: string, bol: bool)
    requires lines != [] && AreLines(lines) && IsWord(header)
    ensures FindHeader(Unlines(lines), header, bol) == HeaderEnd(lines, header, if bol then 0 else 1)
    decreases |Unlines(lines)|
  {
    var text := Unlines(lines);
    var line := GROUP + header;
    WordIsLine(header);
    PrefixIsInFirstLine(lines, line);
    if bol && StartsWith(lines[0], line) {
      UnlinesDrop(lines, |line|);
      CutLinesAreLines(lines, |line|);
      var shorter := [lines[0][|line|..]] + lines[1..];
      SpacesByLine(shorter);
      SkipBlankSameTail(lines, shorter, 1);
      LengthCut(lines, |line|, SkipBlank(lines, 1));
    }
    if !(bol && IsHeaderLine(lines[0], header)) {
      FindHeaderStep(lines, header, bol);
    }
  }

  /** No header in the first line: the search goes on behind its first character. */
  lemma FindHeaderStep(lines: seq<string>, header: string, bol: bool)
    requires lines != [] && AreLines(lines) && IsWord(header)
    requires !(bol && IsHeaderLine(lines[0], header))
    requires !(bol && StartsWith(Unlines(lines), GROUP + header) &&
             SpacesThenEol(Unlines(lines)[|GROUP + header|..]).Some?)
    ensures FindHeader(Unlines(lines), header, bol) == HeaderEnd(lines, header, if bol then 0 else 1)
    decreases |Unlines(lines)|, 0
  {
    assert bol ==> FirstHeader(lines, header, 0) == FirstHeader(lines, header, 1);
    var text := Unlines(lines);
    if text == "" {
      SpacesOfNothing(lines);
    } else if lines[0] == "" {
      FindHeaderUnfold(text, header, bol);
      UnlinesTail(lines);
      FindHeaderByLine(lines[1..], header, true);
      HeaderEndNextLine(lines, header);
    } else {
      FindHeaderUnfold(text, header, bol);
      UnlinesTail(lines);
      CutLinesAreLines(lines, 1);
      assert text[0] != '\n' by { assert text[0] == lines[0][0] && lines[0][0] in lines[0]; }
      FindHeaderByLine([lines[0][1..]] + lines[1..], header, false);
      HeaderEndNextChar(lines, header);
    }
  }

  lemma FindHeaderUnfold(text: string, header: string, bol: bool)
    requires text != ""
    requires !(bol && StartsWith(text, GROUP + header) && SpacesThenEol(text[|GROUP + header|..]).Some?)
    ensures FindHeader(text, header, bol) == Plus(FindHeader(text[1..], header, text[0] == '\n'), 1)
  {
  }

  function Plus(a: Option<nat>, n: nat): Option<nat> {
    match a
    case None => None
    case Some(i) => Some(i + n)
  }

  lemma HeaderEndNextLine(lines: seq<string>, header: string)
    requires |lines| > 1 && lines[0] == ""
    ensures HeaderEnd(lines, header, 1) == Plus(HeaderEnd(lines[1..], header, 0), 1)
  {
    var found := FirstHeader(lines, header, 1);
    FirstHeaderShift(lines, lines[1..], header, 0);
    if found.Some? {
      SkipBlankShift(lines, lines[1..], found.value);
      LengthCons(lines, SkipBlank(lines, found.value + 1));
    }
  }

  lemma HeaderEndNextChar(lines: seq<string>, header: string)
    requires lines != [] && lines[0] != ""
    ensures HeaderEnd(lines, header, 1) == Plus(HeaderEnd([lines[0][1..]] + lines[1..], header, 1), 1)
  {
    var found := FirstHeader(lines, header, 1);
    var shorter := [lines[0][1..]] + lines[1..];
    FirstHeaderSameTail(lines, shorter, header, 1);
    if found.Some? {
      SkipBlankSameTail(lines, shorter, found.value + 1);
      LengthCut(lines, 1, SkipBlank(lines, found.value + 1));
    }
  }

  /* ---------- The fold, line by line ---------- */

  function EntryLines(group: Group): (lines: seq<string>)
    ensures lines != [] && AreLines(lines)
  {
    Lines(Joined(group))
  }

  function InsertLines(lines: seq<string>, at: nat, block: seq<string>): seq<string>
    requires at <= |lines|
  {
    lines[..at] + ([""] + block) + lines[at..]
  }

  /** The line before which a category's entries go: the first non-blank one under its first header. */
  function Place(lines: seq<string>, header: string): (r: Option<nat>)
    ensures r.Some? ==> 0 < r.value <= |lines|
  {
    match FirstHeader(lines, header, 0)
    case None => None
    case Some(k) => Some(SkipBlank(lines, k + 1))
  }

  function FoldLine(lines: seq<string>, group: Group): seq<string> {
    if group.entries == [] || Place(lines, group.header).None? then lines
    else InsertLines(lines, Place(lines, group.header).value, EntryLines(group))
  }

  function FoldLines(lines: seq<string>, groups: seq<Group>): seq<string> {
    if groups == [] then lines else FoldLine(FoldLines(lines, groups[..|groups| - 1]), groups[|groups| - 1])
  }

  lemma InsertByLine(lines: seq<string>, at: nat, block: seq<string>)
    requires 0 < at <= |lines| && AreLines(lines) && block != [] && AreLines(block)
    ensures Length(lines, at) <= |Unlines(lines)|
    ensures Insert(Unlines(lines), Edit(Length(lines, at), "\n\n" + Unlines(block))) ==
            Unlines(InsertLines(lines, at, block))
  {
    var head, tail := lines[..at], lines[at..];
    var added := "\n\n" + Unlines(block);
    assert lines == head + tail;
    InsertBehind(head, block);
    if tail == [] {
      assert lines == head && InsertLines(lines, at, block) == head + ([""] + block);
      Splice(Unlines(head), added, "");
    } else {
      UnlinesConcat(head, tail);
      UnlinesConcat(head + ([""] + block), tail);
      Splice(Unlines(head), added, "\n" + Unlines(tail));
    }
  }

  lemma Splice(text: string, added: string, rest: string)
    ensures Insert(text + rest, Edit(|text|, added)) == text + added + rest
    ensures text + "" == text && (text + added) + "" == text + added
    ensures rest != "" ==> (text + added) + "\n" + rest[1..] == (text + added) + ("\n" + rest[1..])
    ensures rest != "" ==> text + "\n" + rest[1..] == text + ("\n" + rest[1..])
  {
    assert (text + rest)[..|text|] == text && (text + rest)[|text|..] == rest;
  }

  lemma InsertedAreLines(lines: seq<string>, at: nat, block: seq<string>)
    requires at <= |lines| && AreLines(lines) && AreLines(block)
    ensures InsertLines(lines, at, block) != [] && AreLines(InsertLines(lines, at, block))
  {
    assert IsLine("");
  }

  lemma InsertBehind(head: seq<string>, block: seq<string>)
    requires head != [] && block != []
    ensures Unlines(head + ([""] + block)) == Unlines(head) + ("\n\n" + Unlines(block))
  {
    UnlinesCons("", block);
    UnlinesConcat(head, [""] + block);
    assert Unlines(head) + "\n" + ("" + "\n" + Unlines(block)) == Unlines(head) + ("\n\n" + Unlines(block));
  }

  predicate HasWords(groups: seq<Group>) {
    forall i :: 0 <= i < |groups| ==> IsWord(groups[i].header)
  }

  /** The character edits and the line edits agree. */
  lemma {:induction false} FoldByLine(body: string, groups: seq<Group>)
    requires HasWords(groups)
    ensures var lines := FoldLines(Lines(body), groups);
            lines != [] && AreLines(lines) && FoldExisting(body, groups) == Unlines(lines)
  {
    UnlinesOfLines(body);
    if groups != [] {
      var init, last := groups[..|groups| - 1], groups[|groups| - 1];
      FoldByLine(body, init);
      var lines := FoldLines(Lines(body), init);
      FindHeaderByLine(lines, last.header, true);
      UnlinesOfLines(Joined(last));
      if last.entries != [] && Place(lines, last.header).Some? {
        InsertByLine(lines, Place(lines, last.header).value, EntryLines(last));
        InsertedAreLines(lines, Place(lines, last.header).value, EntryLines(last));
      }
    }
  }
}
