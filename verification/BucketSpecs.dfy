/**
 Length buckets on the command line (`parse_bucket_specs` of `compose/accelerated/bench_embed.py`)
 and the way the benchmark prints them.
 */
module BucketSpecs {
  import opened Wrappers
  import opened Sequences
  import opened Text
  import opened Words
  import opened Decimals
  import opened Integers
  import opened Dataset

  datatype SpecError = InvalidBucket | DuplicateName | NoBucket

  /* ---------- Parsing ---------- */

  /** The text in front of the first `c` and the text behind it. */
  function SplitFirst(c: char, s: string): (r: Option<(string, string)>)
    ensures r.Some? ==> s == r.value.0 + [c] + r.value.1 && c !in r.value.0
    ensures r.None? ==> c !in s
  {
    if s == "" then None
    else if s[0] == c then Some(("", s[1..]))
    else
      match SplitFirst(c, s[1..])
      case None => None
      case Some((before, behind)) => Some(([s[0]] + before, behind))
  }

  /** One non-blank part, stripped. */
  function ParsePart(part: string): Result<BucketSpec, SpecError> {
    match SplitFirst(':', part)
    case None => Err(InvalidBucket)
    case Some((rawName, rawSize)) =>
      match ParseInt(rawSize)
      case None => Err(InvalidBucket)
      case Some(size) =>
        if Strip(IsSpace, rawName) == "" || size <= 0 then Err(InvalidBucket)
        else Ok(BucketSpec(Strip(IsSpace, rawName), size))
  }

  predicate HasBucket(specs: seq<BucketSpec>, name: string) {
    exists i :: 0 <= i < |specs| && specs[i].name == name
  }

  /** One part: nothing if it is blank. */
  function ReadPart(raw: string): Result<Option<BucketSpec>, SpecError> {
    var part := Strip(IsSpace, raw);
    if part == "" then Ok(None)
    else
      match ParsePart(part)
      case Err(e) => Err(e)
      case Ok(spec) => Ok(Some(spec))
  }

  function ReadParts(parts: seq<string>): (r: seq<Result<Option<BucketSpec>, SpecError>>)
    ensures |r| == |parts| && forall i :: 0 <= i < |r| ==> r[i] == ReadPart(parts[i])
  {
    seq(|parts|, i requires 0 <= i < |parts| => ReadPart(parts[i]))
  }

  /** The parts in order, up to the first error. */
  function Gather(outcomes: seq<Result<Option<BucketSpec>, SpecError>>): Result<seq<BucketSpec>, SpecError> {
    if outcomes == [] then Ok([])
    else
      match (Gather(outcomes[..|outcomes| - 1]), outcomes[|outcomes| - 1])
      case (Err(e), _) => Err(e)
      case (Ok(_), Err(e)) => Err(e)
      case (Ok(specs), Ok(None)) => Ok(specs)
      case (Ok(specs), Ok(Some(spec))) => if HasBucket(specs, spec.name) then Err(DuplicateName) else Ok(specs + [spec])
  }

  function Parse(value: string): Result<seq<BucketSpec>, SpecError> {
    match Gather(ReadParts(SplitOn(',', value)))
    case Err(e) => Err(e)
    case Ok(specs) => if specs == [] then Err(NoBucket) else Ok(specs)
  }

  lemma {:induction false} GatherFails(outcomes: seq<Result<Option<BucketSpec>, SpecError>>, i: nat)
    requires i <= |outcomes| && Gather(outcomes[..i]).Err?
    ensures Gather(outcomes) == Gather(outcomes[..i])
    decreases |outcomes|
  {
    if i == |outcomes| {
      TakeAll(outcomes);
    } else {
      assert outcomes[..|outcomes| - 1][..i] == outcomes[..i];
      GatherFails(outcomes[..|outcomes| - 1], i);
    }
  }

  /** `parse_bucket_specs` */
  method ParseBucketSpecs(value: string) returns (r: Result<seq<BucketSpec>, SpecError>)
    ensures r == Parse(value)
  {
    var specs: seq<BucketSpec> := [];
    var seen: set<string> := {};
    var parts := SplitOn(',', value);
    ghost var outcomes := ReadParts(parts);
    for i := 0 to |parts|
      invariant Gather(outcomes[..i]) == Ok(specs)
      invariant forall name :: name in seen <==> HasBucket(specs, name)
    {
      TakeOne(outcomes, i);
      var part := Strip(IsSpace, parts[i]);
      if part == "" {
        continue;
      }
      var spec := ParsePart(part);
      if spec.Err? {
        GatherFails(outcomes, i + 1);
        return Err(spec.error);
      }
      if spec.value.name in seen {
        GatherFails(outcomes, i + 1);
        return Err(DuplicateName);
      }
      SeenGrows(specs, spec.value);
      seen := seen + {spec.value.name};
      specs := specs + [spec.value];
    }
    TakeAll(outcomes);
    if specs == [] {
      return Err(NoBucket);
    }
    return Ok(specs);
  }

  lemma SeenGrows(specs: seq<BucketSpec>, spec: BucketSpec)
    ensures forall name :: HasBucket(specs + [spec], name) <==> HasBucket(specs, name) || name == spec.name
  {
    assert (specs + [spec])[|specs|] == spec;
    forall name | HasBucket(specs, name) ensures HasBucket(specs + [spec], name) {
      var i :| 0 <= i < |specs| && specs[i].name == name;
      assert (specs + [spec])[i].name == name;
    }
  }

  /* ---------- Printing ---------- */

  function PrintSpec(spec: BucketSpec): string {
    spec.name + ":" + ShowInt(spec.wordTokens)
  }

  function PrintSpecs(specs: seq<BucketSpec>): (r: seq<string>)
    ensures |r| == |specs| && forall i :: 0 <= i < |r| ==> r[i] == PrintSpec(specs[i])
  {
    seq(|specs|, i requires 0 <= i < |specs| => PrintSpec(specs[i]))
  }

  /** The buckets in the line that describes the data set. */
  function Print(specs: seq<BucketSpec>): string {
    Join(",", PrintSpecs(specs))
  }

  /* ---------- The round trip ---------- */

  predicate IsBucket(spec: BucketSpec) {
    && spec.name != "" && IsStripped(IsSpace, spec.name) && ',' !in spec.name && ':' !in spec.name
    && spec.wordTokens > 0
  }

  predicate AreBuckets(specs: seq<BucketSpec>) {
    && specs != [] && DistinctNames(specs)
    && forall i :: 0 <= i < |specs| ==> IsBucket(specs[i])
  }

  lemma {:induction false} FirstIs(c: char, a: string, b: string)
    requires c !in a
    ensures SplitFirst(c, a + [c] + b) == Some((a, b))
  {
    var s := a + [c] + b;
    if a == "" {
      assert s[1..] == b;
    } else {
      assert s[1..] == a[1..] + [c] + b;
      FirstIs(c, a[1..], b);
      assert [a[0]] + a[1..] == a;
    }
  }

  lemma PrintedIsStripped(spec: BucketSpec)
    requires IsBucket(spec)
    ensures PrintSpec(spec) != "" && IsStripped(IsSpace, PrintSpec(spec)) && ',' !in PrintSpec(spec)
  {
    var size := Show(spec.wordTokens);
    var part := spec.name + ":" + size;
    assert part == PrintSpec(spec);
    forall i | 0 <= i < |size| ensures !IsSpace(size[i]) && size[i] != ',' {
      DigitsAreNoSpace(size[i]);
    }
    assert part[0] == spec.name[0] && part[|part| - 1] == size[|size| - 1];
  }

  lemma PrintedPartParses(spec: BucketSpec)
    requires IsBucket(spec)
    ensures Strip(IsSpace, PrintSpec(spec)) == PrintSpec(spec) && PrintSpec(spec) != ""
    ensures ParsePart(PrintSpec(spec)) == Ok(spec) && ',' !in PrintSpec(spec)
  {
    PrintedIsStripped(spec);
    StrippedStays(IsSpace, PrintSpec(spec));
    StrippedStays(IsSpace, spec.name);
    FirstIs(':', spec.name, Show(spec.wordTokens));
    assert spec.name + [':'] + Show(spec.wordTokens) == PrintSpec(spec);
    ShownParses(spec.wordTokens);
  }

  /** Parts read without error and with distinct names are gathered. */
  lemma {:induction false} DistinctAreGathered(outcomes: seq<Result<Option<BucketSpec>, SpecError>>,
                                        specs: seq<BucketSpec>)
    requires DistinctNames(specs) && |outcomes| == |specs| && forall i :: 0 <= i < |specs| ==>
             outcomes[i] == Ok(Some(specs[i]))
    ensures Gather(outcomes) == Ok(specs)
  {
    if specs != [] {
      var n := |specs| - 1;
      DistinctAreGathered(outcomes[..n], specs[..n]);
      TakeOne(specs, n);
      TakeAll(specs);
    }
  }

  lemma ParsedIsBucket(part: string)
    requires ',' !in part && ParsePart(part).Ok?
    ensures IsBucket(ParsePart(part).value)
  {
    var raw := SplitFirst(':', part).value.0;
    StripStrips(IsSpace, raw);
    assert forall c :: c in raw ==> c in part;
  }

  lemma OneMoreBucket(specs: seq<BucketSpec>, spec: BucketSpec)
    requires DistinctNames(specs) && !HasBucket(specs, spec.name)
    ensures DistinctNames(specs + [spec])
  {
  }

  /** What is gathered was read, and names are distinct. */
  lemma {:induction false} GatheredWereRead(outcomes: seq<Result<Option<BucketSpec>, SpecError>>)
    requires Gather(outcomes).Ok?
    ensures DistinctNames(Gather(outcomes).value)
    ensures forall spec :: spec in Gather(outcomes).value ==> Ok(Some(spec)) in outcomes
  {
    if outcomes != [] {
      var n := |outcomes| - 1;
      GatheredWereRead(outcomes[..n]);
      assert outcomes == outcomes[..n] + [outcomes[n]];
      if outcomes[n].value.Some? {
        OneMoreBucket(Gather(outcomes[..n]).value, outcomes[n].value.value);
      }
    }
  }

  lemma ParsedAreBuckets(parts: seq<string>)
    requires AreFree(',', parts) && Gather(ReadParts(parts)).Ok?
    ensures DistinctNames(Gather(ReadParts(parts)).value)
    ensures forall i :: 0 <= i < |Gather(ReadParts(parts)).value| ==> IsBucket(Gather(ReadParts(parts)).value[i])
  {
    var outcomes := ReadParts(parts);
    GatheredWereRead(outcomes);
    forall spec | spec in Gather(outcomes).value ensures IsBucket(spec) {
      var i :| 0 <= i < |outcomes| && outcomes[i] == Ok(Some(spec));
      StripStrips(IsSpace, parts[i]);
      ParsedIsBucket(Strip(IsSpace, parts[i]));
    }
  }

  lemma PrintedPartsAreSplit(specs: seq<BucketSpec>)
    requires specs != [] && forall i :: 0 <= i < |specs| ==> IsBucket(specs[i])
    ensures SplitOn(',', Print(specs)) == PrintSpecs(specs)
  {
    forall i | 0 <= i < |specs| ensures ',' !in PrintSpecs(specs)[i] {
      PrintedPartParses(specs[i]);
    }
    SplitOnJoined(',', "", "", PrintSpecs(specs));
    assert [','] + "" == "," && "" + Print(specs) == Print(specs);
    forall i | 0 <= i < |specs| ensures Glued("", "", PrintSpecs(specs))[i] == PrintSpecs(specs)[i] {
      assert "" + PrintSpecs(specs)[i] == PrintSpecs(specs)[i];
    }
  }

  /**
   Buckets print to a text that parses to them if and only if there is one, sizes are positive,
   and names are distinct, not empty, without white space at their ends and without `,` and `:`.
   */
  lemma PrintedParses(specs: seq<BucketSpec>)
    ensures Parse(Print(specs)) == Ok(specs) <==> AreBuckets(specs)
  {
    if AreBuckets(specs) {
      PrintedPartsAreSplit(specs);
      forall i | 0 <= i < |specs| ensures ReadPart(PrintSpecs(specs)[i]) == Ok(Some(specs[i])) {
        PrintedPartParses(specs[i]);
      }
      DistinctAreGathered(ReadParts(PrintSpecs(specs)), specs);
    }
    if Parse(Print(specs)).Ok? {
      ParsedAreBuckets(SplitOn(',', Print(specs)));
    }
  }

  /** Whatever is accepted prints to a text that parses to the same buckets. */
  lemma AcceptedRoundTrips(value: string)
    requires Parse(value).Ok?
    ensures Parse(Print(Parse(value).value)) == Parse(value)
    ensures DistinctNames(Parse(value).value) && ArePositive(Parse(value).value)
  {
    ParsedAreBuckets(SplitOn(',', value));
    PrintedParses(Parse(value).value);
  }
}
