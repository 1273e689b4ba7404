/**
 From fragment files to the groups that are folded: `parse_fragment` and `collect`
 of `scripts/collate_changelog.py`.
 */
module ChangelogFragments {
  import opened Wrappers
  import opened Sequences
  import opened Text
  import opened Words
  import opened Changelog
  import opened ChangelogLayout
  import opened ChangelogTheorems

  datatype FragmentFile = FragmentFile(name: string, content: string)

  datatype FragmentError = BadName | UnknownType | EmptyBody

  /* ---------- One fragment ---------- */

  predicate IsLetters(s: string) {
    s != "" && forall i :: 0 <= i < |s| ==> 'a' <= s[i] <= 'z' || 'A' <= s[i] <= 'Z'
  }

  /** What follows the last dot, with what precedes it. */
  function SplitAtLastDot(s: string): (r: Option<(string, string)>)
    ensures r.Some? ==> s == r.value.0 + "." + r.value.1 && '.' !in r.value.1
    ensures r.None? ==> '.' !in s
  {
    if s == "" then None
    else if s[|s| - 1] == '.' then Some((s[..|s| - 1], ""))
    else
      match SplitAtLastDot(s[..|s| - 1])
      case None => None
      case Some((slug, suffix)) => Some((slug, suffix + [s[|s| - 1]]))
  }

  /** The type in `<slug>.<type>.md`, as the file name pattern matches it; `$` also stands before a final newline. */
  function TypeOf(name: string): Option<string> {
    var base := if name != "" && name[|name| - 1] == '\n' then name[..|name| - 1] else name;
    if |base| < 3 || base[|base| - 3..] != ".md" then None
    else
      match SplitAtLastDot(base[..|base| - 3])
      case None => None
      case Some((slug, suffix)) => if slug != "" && IsLine(slug) && IsLetters(suffix) then Some(suffix) else None
  }

  /** The keys of CATEGORIES are its headers in lower case. */
  predicate IsKey(categories: seq<string>, key: string) {
    exists i :: 0 <= i < |categories| && key == Lower(categories[i])
  }

  /** `parse_fragment`: the category key and the stripped body. */
  function ParseFragment(file: FragmentFile): Result<(string, string), FragmentError> {
    match TypeOf(file.name)
    case None => Err(BadName)
    case Some(suffix) =>
      if !IsKey(CATEGORIES, Lower(suffix)) then Err(UnknownType)
      else if Strip(IsSpace, file.content) == "" then Err(EmptyBody)
      else Ok((Lower(suffix), Strip(IsSpace, file.content)))
  }

  /** A fragment that parses has a body fit for folding. */
  lemma ParsedIsStripped(file: FragmentFile)
    requires ParseFragment(file).Ok?
    ensures Stripped(ParseFragment(file).value.1) && IsKey(CATEGORIES, ParseFragment(file).value.0)
  {
    StripStrips(IsSpace, file.content);
  }

  /* ---------- All fragments ---------- */

  /** The bodies of the fragments of one category, in file order; fragments that do not parse are skipped. */
  function Bodies(files: seq<FragmentFile>, key: string): seq<string> {
    if files == [] then []
    else
      Bodies(files[..|files| - 1], key) +
      match ParseFragment(files[|files| - 1])
      case Err(_) => []
      case Ok((category, body)) => if category == key then [body] else []
  }

  predicate AllParse(files: seq<FragmentFile>) {
    forall i :: 0 <= i < |files| ==> ParseFragment(files[i]).Ok?
  }

  /** `grouped[key]` */
  function Entries(grouped: map<string, seq<string>>, key: string): seq<string> {
    if key in grouped then grouped[key] else []
  }

  ghost predicate Grouped(grouped: map<string, seq<string>>, files: seq<FragmentFile>) {
    forall key :: Entries(grouped, key) == Bodies(files, key)
  }

  lemma GroupOne(before: map<string, seq<string>>, files: seq<FragmentFile>, file: FragmentFile,
                 after: map<string, seq<string>>)
    requires Grouped(before, files)
    requires match ParseFragment(file)
             case Err(_) => after == before
             case Ok((category, body)) => after == before[category := Entries(before, category) + [body]]
    ensures Grouped(after, files + [file])
  {
    assert (files + [file])[..|files|] == files;
    forall key ensures Entries(after, key) == Bodies(files + [file], key) {
      assert Entries(before, key) == Bodies(files, key);
    }
  }

  /** The errors of the fragments that do not parse, in file order. */
  function ErrorsOf(files: seq<FragmentFile>): seq<FragmentError> {
    if files == [] then []
    else
      ErrorsOf(files[..|files| - 1]) +
      match ParseFragment(files[|files| - 1])
      case Err(error) => [error]
      case Ok(_) => []
  }

  lemma ErrorOne(files: seq<FragmentFile>, file: FragmentFile)
    ensures ErrorsOf(files + [file]) ==
            ErrorsOf(files) +
            match ParseFragment(file)
            case Err(error) => [error]
            case Ok(_) => []
  {
    assert (files + [file])[..|files|] == files;
  }

  lemma {:induction false} FailureIsAnError(files: seq<FragmentFile>, i: nat)
    requires i < |files| && ParseFragment(files[i]).Err?
    ensures ErrorsOf(files) != []
  {
    if i < |files| - 1 {
      FailureIsAnError(files[..|files| - 1], i);
    }
  }

  lemma {:induction false} ErrorIsAFailure(files: seq<FragmentFile>) returns (i: nat)
    requires ErrorsOf(files) != []
    ensures i < |files| && ParseFragment(files[i]).Err?
  {
    i := |files| - 1;
    if ParseFragment(files[i]).Ok? {
      i := ErrorIsAFailure(files[..i]);
    }
  }

  lemma NoErrors(files: seq<FragmentFile>)
    ensures ErrorsOf(files) == [] <==> AllParse(files)
  {
    if ErrorsOf(files) != [] {
      var i := ErrorIsAFailure(files);
    } else {
      forall i | 0 <= i < |files| ensures ParseFragment(files[i]).Ok? {
        if ParseFragment(files[i]).Err? {
          FailureIsAnError(files, i);
        }
      }
    }
  }

  /** `collect`: every fragment is looked at, and one that does not parse fails the whole collection. */
  method Collect(files: seq<FragmentFile>) returns (r: Result<map<string, seq<string>>, seq<FragmentError>>)
    ensures r.Ok? <==> AllParse(files)
    ensures r.Ok? ==> Grouped(r.value, files)
    ensures r.Err? ==> r.error == ErrorsOf(files)
  {
    var grouped: map<string, seq<string>> := map[];
    var errors: seq<FragmentError> := [];
    for i := 0 to |files|
      invariant Grouped(grouped, files[..i])
      invariant errors == ErrorsOf(files[..i])
    {
      ghost var before := grouped;
      TakeOne(files, i);
      ErrorOne(files[..i], files[i]);
      match ParseFragment(files[i])
      case Err(error) =>
        errors := errors + [error];
        GroupOne(before, files[..i], files[i], grouped);
      case Ok((category, body)) =>
        grouped := grouped[category := Entries(grouped, category) + [body]];
        GroupOne(before, files[..i], files[i], grouped);
    }
    TakeAll(files);
    NoErrors(files);
    if errors != [] {
      return Err(errors);
    }
    return Ok(grouped);
  }

  /** The groups, in the order of the categories. */
  function GroupsOf(files: seq<FragmentFile>, categories: seq<string>): (groups: seq<Group>)
    ensures |groups| == |categories|
    ensures forall i :: 0 <= i < |groups| ==> groups[i] == Group(categories[i], Bodies(files, Lower(categories[i])))
  {
    if categories == [] then []
    else
      var last := categories[|categories| - 1];
      GroupsOf(files, categories[..|categories| - 1]) + [Group(last, Bodies(files, Lower(last)))]
  }

  lemma {:induction false} BodiesAreStripped(files: seq<FragmentFile>, key: string)
    ensures forall e :: e in Bodies(files, key) ==> Stripped(e)
  {
    if files != [] {
      BodiesAreStripped(files[..|files| - 1], key);
      if ParseFragment(files[|files| - 1]).Ok? {
        ParsedIsStripped(files[|files| - 1]);
      }
    }
  }

  ghost predicate DistinctKeys(categories: seq<string>) {
    forall i, j :: 0 <= i < j < |categories| ==> Lower(categories[i]) != Lower(categories[j])
  }

  /** One more file is one more entry, in exactly one of the groups. */
  lemma {:induction false} OneMoreFile(files: seq<FragmentFile>, file: FragmentFile, categories: seq<string>)
    requires DistinctKeys(categories) && ParseFragment(file).Ok?
    ensures TotalEntries(GroupsOf(files + [file], categories)) ==
            TotalEntries(GroupsOf(files, categories)) + if IsKey(categories, ParseFragment(file).value.0) then 1 else 0
  {
    if categories != [] {
      var n := |categories| - 1;
      OneMoreFile(files, file, categories[..n]);
      OneMoreBody(files, file, Lower(categories[n]));
      TotalStep(files, categories);
      TotalStep(files + [file], categories);
      KeyStep(categories, ParseFragment(file).value.0);
    }
  }

  lemma OneMoreBody(files: seq<FragmentFile>, file: FragmentFile, key: string)
    requires ParseFragment(file).Ok?
    ensures |Bodies(files + [file], key)| == |Bodies(files, key)| + if ParseFragment(file).value.0 == key then 1 else 0
  {
    assert (files + [file])[..|files|] == files;
  }

  lemma TotalStep(files: seq<FragmentFile>, categories: seq<string>)
    requires categories != []
    ensures TotalEntries(GroupsOf(files, categories)) ==
            TotalEntries(GroupsOf(files, categories[..|categories| - 1])) +
              |Bodies(files, Lower(categories[|categories| - 1]))|
  {
    var all := GroupsOf(files, categories);
    assert all[..|all| - 1] == GroupsOf(files, categories[..|categories| - 1]);
  }

  lemma KeyStep(categories: seq<string>, key: string)
    requires DistinctKeys(categories) && categories != []
    ensures IsKey(categories, key) <==>
            IsKey(categories[..|categories| - 1], key) || key == Lower(categories[|categories| - 1])
    ensures IsKey(categories[..|categories| - 1], key) ==> key != Lower(categories[|categories| - 1])
  {
    var n := |categories| - 1;
    if i :| 0 <= i < n && key == Lower(categories[..n][i]) {
      assert key == Lower(categories[i]);
    }
    if i :| 0 <= i < |categories| && key == Lower(categories[i]) {
      assert i < n ==> key == Lower(categories[..n][i]);
    }
  }

  /** The first `upto` files are all filed, each once. */
  lemma {:induction false} EveryFragmentIsFiled(files: seq<FragmentFile>, categories: seq<string>, upto: nat)
    requires DistinctKeys(categories) && upto <= |files|
    requires forall i :: 0 <= i < |files| ==>
             ParseFragment(files[i]).Ok? && IsKey(categories, ParseFragment(files[i]).value.0)
    ensures TotalEntries(GroupsOf(files[..upto], categories)) == upto
  {
    if upto == 0 {
      NoFiles(categories);
    } else {
      EveryFragmentIsFiled(files, categories, upto - 1);
      TakeOne(files, upto - 1);
      OneMoreFile(files[..upto - 1], files[upto - 1], categories);
    }
  }

  lemma {:induction false} NoFiles(categories: seq<string>)
    ensures TotalEntries(GroupsOf([], categories)) == 0
  {
    if categories != [] {
      NoFiles(categories[..|categories| - 1]);
      TotalStep([], categories);
    }
  }

  /** The third letter tells the categories of one length apart. */
  lemma KeysDiffer()
    ensures DistinctKeys(CATEGORIES) && forall i, j :: 0 <= i < j < |CATEGORIES| ==> CATEGORIES[i] != CATEGORIES[j]
    ensures forall i :: 0 <= i < |CATEGORIES| ==> IsWord(CATEGORIES[i])
  {
    forall i, j | 0 <= i < j < |CATEGORIES| ensures Lower(CATEGORIES[i]) != Lower(CATEGORIES[j]) {
      ThirdLettersDiffer(i, j);
      assert |Lower(CATEGORIES[i])| == |CATEGORIES[i]| && |Lower(CATEGORIES[j])| == |CATEGORIES[j]|;
      if |CATEGORIES[i]| == |CATEGORIES[j]| {
        assert Lower(CATEGORIES[i])[2] == LowerChar(CATEGORIES[i][2]);
        assert Lower(CATEGORIES[j])[2] == LowerChar(CATEGORIES[j][2]);
      }
    }
  }

  lemma ThirdLettersDiffer(i: nat, j: nat)
    requires i < j < |CATEGORIES|
    ensures |CATEGORIES[i]| > 2 && |CATEGORIES[j]| > 2
    ensures |CATEGORIES[i]| == |CATEGORIES[j]| ==> LowerChar(CATEGORIES[i][2]) != LowerChar(CATEGORIES[j][2])
  {
  }

  /** No line of an entry is the header line of another category. */
  predicate AvoidHeaders(groups: seq<Group>, categories: seq<string>) {
    forall i, j :: 0 <= i < |groups| && 0 <= j < |categories| && i != j ==>
      HasNoHeader(EntryLines(groups[i]), categories[j])
  }

  /**
   Folding a collection counts every file once, and its groups are as the split needs them; they
   are tame unless a line of an entry is the header line of another category.
   */
  lemma {:induction false} CollectionFolds(files: seq<FragmentFile>)
    requires AllParse(files)
    ensures TotalEntries(GroupsOf(files, CATEGORIES)) == |files|
    ensures AreFiled(GroupsOf(files, CATEGORIES))
    ensures AvoidHeaders(GroupsOf(files, CATEGORIES), CATEGORIES) ==> AllTame(GroupsOf(files, CATEGORIES))
  {
    KeysDiffer();
    forall i | 0 <= i < |files| ensures IsKey(CATEGORIES, ParseFragment(files[i]).value.0) {
      ParsedIsStripped(files[i]);
    }
    EveryFragmentIsFiled(files, CATEGORIES, |files|);
    TakeAll(files);
    GroupsAreTame(files, CATEGORIES);
  }

  lemma GroupsAreTame(files: seq<FragmentFile>, categories: seq<string>)
    requires forall i :: 0 <= i < |categories| ==> IsWord(categories[i])
    requires forall i, j :: 0 <= i < j < |categories| ==> categories[i] != categories[j]
    ensures AreFiled(GroupsOf(files, categories))
    ensures AvoidHeaders(GroupsOf(files, categories), categories) ==> AllTame(GroupsOf(files, categories))
  {
    var groups := GroupsOf(files, categories);
    forall i | 0 <= i < |groups| ensures IsFiled(groups[i]) {
      BodiesAreStripped(files, Lower(categories[i]));
    }
  }
}
