/**
 Deep-link routes (`cloudflare-og-worker/src/parser.ts`): the pattern table, `parseRoute` and
 `buildCanonicalUrl`.
 */
module Routes {
  import opened Wrappers
  import PercentDecoding

  datatype Route =
    | Thread(userSlug: string, corpusSlug: string, threadId: string)
    | Corpus(userSlug: string, corpusSlug: string)
    | DocumentInCorpus(userSlug: string, corpusSlug: string, documentSlug: string)
    | Document(userSlug: string, documentSlug: string)
    | Extract(userSlug: string, extractId: string)

  /** A piece of a pattern: `\/text` or `\/([^\/]+)`. */
  datatype Piece = Literal(text: string) | Slug

  type Pattern = seq<Piece>

  const PATTERNS: seq<Pattern> := [
    [Literal("c"), Slug, Slug, Literal("discussions"), Slug],
    [Literal("c"), Slug, Slug],
    [Literal("d"), Slug, Slug, Slug],
    [Literal("d"), Slug, Slug],
    [Literal("e"), Slug, Slug]]

  /** `s.replace(/\/$/, "")` */
  function TrimSlash(s: string): string {
    if s != "" && s[|s| - 1] == '/' then s[..|s| - 1] else s
  }

  /** Where the run of characters other than a slash ends. */
  function SegmentEnd(path: string, from: nat): (n: nat)
    requires from <= |path|
    ensures from <= n <= |path| && '/' !in path[from..n] && (n < |path| ==> path[n] == '/')
    decreases |path| - from
  {
    if from == |path| || path[from] == '/' then from
    else
      var n := SegmentEnd(path, from + 1);
      assert path[from..n] == [path[from]] + path[from + 1..n];
      n
  }

  /** The captures of an anchored match. A literal piece is always followed by a slash or by the end. */
  function Match(pattern: Pattern, path: string): Option<seq<string>> {
    if pattern == [] then if path == "" then Some([]) else None
    else if path == "" || path[0] != '/' then None
    else
      var n := SegmentEnd(path, 1);
      match (pattern[0], Match(pattern[1..], path[n..]))
      case (Literal(text), Some(captures)) => if path[1..n] == text then Some(captures) else None
      case (Slug, Some(captures)) => if path[1..n] == "" then None else Some([path[1..n]] + captures)
      case (_, None) => None
  }


  /** The route that the table builds from the captures of pattern `i`. */
  function RouteOf(i: nat, m: seq<string>): Option<Route> {
    if i == 0 && |m| == 3 then Some(Thread(m[0], m[1], m[2]))
    else if i == 1 && |m| == 2 then Some(Corpus(m[0], m[1]))
    else if i == 2 && |m| == 3 then Some(DocumentInCorpus(m[0], m[1], m[2]))
    else if i == 3 && |m| == 2 then Some(Document(m[0], m[1]))
    else if i == 4 && |m| == 2 then Some(Extract(m[0], m[1]))
    else None
  }

  function FirstMatch(path: string, i: nat): Option<Route>
    requires i <= |PATTERNS|
    decreases |PATTERNS| - i
  {
    if i == |PATTERNS| then None
    else match Match(PATTERNS[i], path)
      case Some(captures) => RouteOf(i, captures)
      case None => FirstMatch(path, i + 1)
  }

  function ParseRoute(pathname: string): Option<Route> {
    match PercentDecoding.Decode(TrimSlash(pathname))
    case None => None
    case Some(normalized) => FirstMatch(normalized, 0)
  }

  function BuildCanonicalUrl(route: Route, baseUrl: string): string {
    var base := TrimSlash(baseUrl);
    match route
    case Corpus(user, corpus) => base + "/c/" + user + "/" + corpus
    case Thread(user, corpus, thread) => base + "/c/" + user + "/" + corpus + "/discussions/" + thread
    case Document(user, document) => base + "/d/" + user + "/" + document
    case DocumentInCorpus(user, corpus, document) => base + "/d/" + user + "/" + corpus + "/" + document
    case Extract(user, extract) => base + "/e/" + user + "/" + extract
  }

  /* ---------- What a match means ---------- */

  /** The path that a pattern denotes for given captures. */
  function Print(pattern: Pattern, captures: seq<string>): string
    requires |captures| == Slugs(pattern)
  {
    if pattern == [] then ""
    else match pattern[0]
      case Literal(text) => "/" + text + Print(pattern[1..], captures)
      case Slug => "/" + captures[0] + Print(pattern[1..], captures[1..])
  }

  function Slugs(pattern: Pattern): nat {
    if pattern == [] then 0 else (if pattern[0] == Slug then 1 else 0) + Slugs(pattern[1..])
  }

  predicate IsSlug(s: string) {
    s != "" && '/' !in s
  }

  predicate AreSlugs(captures: seq<string>) {
    forall i :: 0 <= i < |captures| ==> IsSlug(captures[i])
  }

  predicate IsPattern(pattern: Pattern) {
    forall i :: 0 <= i < |pattern| && pattern[i].Literal? ==> '/' !in pattern[i].text
  }

  predicate IsCapture(pattern: Pattern, path: string, captures: seq<string>) {
    |captures| == Slugs(pattern) && AreSlugs(captures) && path == Print(pattern, captures)
  }

  lemma {:induction false} MatchIsSound(pattern: Pattern, path: string)
    requires Match(pattern, path).Some?
    ensures IsCapture(pattern, path, Match(pattern, path).value)
  {
    if pattern != [] {
      var n := SegmentEnd(path, 1);
      MatchIsSound(pattern[1..], path[n..]);
      assert path == "/" + path[1..n] + path[n..];
      if pattern[0] == Slug {
        var rest := Match(pattern[1..], path[n..]).value;
        assert ([path[1..n]] + rest)[1..] == rest;
      }
    }
  }

  lemma {:induction false} PrintStartsWithSlash(pattern: Pattern, captures: seq<string>)
    requires |captures| == Slugs(pattern)
    ensures Print(pattern, captures) == "" <==> pattern == []
    ensures pattern != [] ==> Print(pattern, captures)[0] == '/'
  {
  }

  lemma {:induction false} SegmentEndIs(path: string, from: nat, n: nat)
    requires from <= n <= |path| && '/' !in path[from..n] && (n < |path| ==> path[n] == '/')
    ensures SegmentEnd(path, from) == n
    decreases n - from
  {
    if from < n {
      assert path[from..n][0] == path[from];
      assert path[from..n][1..] == path[from + 1..n];
      SegmentEndIs(path, from + 1, n);
    }
  }

  lemma HeadSegment(part: string, rest: string)
    requires '/' !in part && (rest == "" || rest[0] == '/')
    ensures var path := "/" + part + rest;
            && path[0] == '/' && SegmentEnd(path, 1) == 1 + |part|
            && path[1..1 + |part|] == part && path[1 + |part|..] == rest
  {
    var path := "/" + part + rest;
    assert path[1..1 + |part|] == part;
    SegmentEndIs(path, 1, 1 + |part|);
  }

  lemma MatchLiteral(pattern: Pattern, rest: string, captures: seq<string>)
    requires pattern != [] && pattern[0].Literal? && '/' !in pattern[0].text && (rest == "" || rest[0] == '/')
    requires Match(pattern[1..], rest) == Some(captures)
    ensures Match(pattern, "/" + pattern[0].text + rest) == Some(captures)
  {
    HeadSegment(pattern[0].text, rest);
  }

  lemma MatchSlug(pattern: Pattern, slug: string, rest: string, captures: seq<string>)
    requires pattern != [] && pattern[0] == Slug && IsSlug(slug) && (rest == "" || rest[0] == '/')
    requires Match(pattern[1..], rest) == Some(captures)
    ensures Match(pattern, "/" + slug + rest) == Some([slug] + captures)
  {
    HeadSegment(slug, rest);
  }

  lemma {:induction false} MatchIsComplete(pattern: Pattern, captures: seq<string>)
    requires IsPattern(pattern) && |captures| == Slugs(pattern) && AreSlugs(captures)
    ensures Match(pattern, Print(pattern, captures)) == Some(captures)
  {
    if pattern != [] {
      var rest := pattern[1..];
      assert IsPattern(rest);
      if pattern[0] == Slug {
        var slug, behind := captures[0], captures[1..];
        assert AreSlugs(behind) && captures == [slug] + behind;
        MatchIsComplete(rest, behind);
        PrintStartsWithSlash(rest, behind);
        MatchSlug(pattern, slug, Print(rest, behind), behind);
      } else {
        MatchIsComplete(rest, captures);
        PrintStartsWithSlash(rest, captures);
        MatchLiteral(pattern, Print(rest, captures), captures);
      }
    }
  }

  /** A match is found exactly when the path is the pattern with slugs put in, and those are its captures. */
  lemma MatchIsExact(pattern: Pattern, path: string, captures: seq<string>)
    requires IsPattern(pattern)
    ensures Match(pattern, path) == Some(captures) <==> IsCapture(pattern, path, captures)
  {
    if Match(pattern, path).Some? {
      MatchIsSound(pattern, path);
    }
    if IsCapture(pattern, path, captures) {
      MatchIsComplete(pattern, captures);
    }
  }

  /* ---------- The table ---------- */

  /** How many pieces a matching pattern has, and its first segment. */
  function Segments(path: string): nat {
    if path == "" then 0 else (if path[0] == '/' then 1 else 0) + Segments(path[1..])
  }

  lemma {:induction false} SegmentsConcat(a: string, b: string)
    ensures Segments(a + b) == Segments(a) + Segments(b)
  {
    if a == "" {
      assert a + b == b;
    } else {
      assert (a + b)[1..] == a[1..] + b;
      SegmentsConcat(a[1..], b);
    }
  }

  lemma {:induction false} NoSegments(a: string)
    requires '/' !in a
    ensures Segments(a) == 0
  {
    if a != "" {
      NoSegments(a[1..]);
    }
  }

  lemma {:induction false} SegmentsOfPrint(pattern: Pattern, captures: seq<string>)
    requires IsPattern(pattern) && |captures| == Slugs(pattern) && AreSlugs(captures)
    ensures Segments(Print(pattern, captures)) == |pattern|
  {
    if pattern != [] {
      var slug := pattern[0] == Slug;
      var part := if slug then captures[0] else pattern[0].text;
      var behind := if slug then captures[1..] else captures;
      var rest := Print(pattern[1..], behind);
      assert IsPattern(pattern[1..]);
      SegmentsOfPrint(pattern[1..], behind);
      NoSegments(part);
      assert ("/" + part)[1..] == part;
      SegmentsConcat("/" + part, rest);
      assert Print(pattern, captures) == "/" + part + rest;
    }
  }

  lemma FirstLiteral(pattern: Pattern, path: string)
    requires pattern != [] && pattern[0].Literal? && Match(pattern, path).Some?
    ensures path != "" && path[1..SegmentEnd(path, 1)] == pattern[0].text
  {
  }

  lemma PatternsAreWellFormed()
    ensures forall i :: 0 <= i < |PATTERNS| ==> IsPattern(PATTERNS[i]) && PATTERNS[i] != [] && PATTERNS[i][0].Literal?
  {
    assert '/' !in "c" && '/' !in "d" && '/' !in "e" && '/' !in "discussions";
  }

  /** Length and first segment tell the patterns apart. */
  lemma ShapesDiffer(i: nat, j: nat)
    requires i < |PATTERNS| && j < |PATTERNS| && |PATTERNS[i]| == |PATTERNS[j]|
    requires PATTERNS[i] != [] && PATTERNS[j] != [] && PATTERNS[i][0] == PATTERNS[j][0]
    ensures i == j
  {
    assert PATTERNS[0][0] == PATTERNS[1][0] == Literal("c");
    assert PATTERNS[2][0] == PATTERNS[3][0] == Literal("d") && PATTERNS[4][0] == Literal("e");
    assert |PATTERNS[0]| == 5 && |PATTERNS[1]| == 3 && |PATTERNS[2]| == 4 && |PATTERNS[3]| == 3;
    assert "c"[0] != "d"[0] && "c"[0] != "e"[0] && "d"[0] != "e"[0];
  }

  /** The five patterns are pairwise disjoint, so their order does not matter. */
  lemma PatternsAreDisjoint(path: string, i: nat, j: nat)
    requires i < |PATTERNS| && j < |PATTERNS|
    requires Match(PATTERNS[i], path).Some? && Match(PATTERNS[j], path).Some?
    ensures i == j
  {
    PatternsAreWellFormed();
    MatchIsSound(PATTERNS[i], path);
    MatchIsSound(PATTERNS[j], path);
    SegmentsOfPrint(PATTERNS[i], Match(PATTERNS[i], path).value);
    SegmentsOfPrint(PATTERNS[j], Match(PATTERNS[j], path).value);
    assert |PATTERNS[i]| == |PATTERNS[j]|;
    FirstLiteral(PATTERNS[i], path);
    FirstLiteral(PATTERNS[j], path);
    ShapesDiffer(i, j);
  }

  lemma {:induction false} AnyMatchIsFirst(path: string, i: nat, from: nat)
    requires from <= i < |PATTERNS| && Match(PATTERNS[i], path).Some?
    ensures FirstMatch(path, from) == RouteOf(i, Match(PATTERNS[i], path).value)
    decreases i - from
  {
    if Match(PATTERNS[from], path).Some? {
      PatternsAreDisjoint(path, i, from);
    } else {
      AnyMatchIsFirst(path, i, from + 1);
    }
  }

  /* ---------- Parsing inverts printing ---------- */

  /** The pattern of a route and its captures. */
  function PatternOf(route: Route): (i: nat)
    ensures i < |PATTERNS|
  {
    match route
    case Thread(_, _, _) => 0
    case Corpus(_, _) => 1
    case DocumentInCorpus(_, _, _) => 2
    case Document(_, _) => 3
    case Extract(_, _) => 4
  }

  function CapturesOf(route: Route): seq<string> {
    match route
    case Thread(user, corpus, thread) => [user, corpus, thread]
    case Corpus(user, corpus) => [user, corpus]
    case DocumentInCorpus(user, corpus, document) => [user, corpus, document]
    case Document(user, document) => [user, document]
    case Extract(user, extract) => [user, extract]
  }

  predicate HasSlugs(route: Route) {
    AreSlugs(CapturesOf(route))
  }

  lemma SlugCounts()
    ensures Slugs(PATTERNS[0]) == 3 && Slugs(PATTERNS[1]) == 2 && Slugs(PATTERNS[2]) == 3
    ensures Slugs(PATTERNS[3]) == 2 && Slugs(PATTERNS[4]) == 2
  {
    assert Slugs([Slug]) == 1;
    assert Slugs([Slug, Slug]) == 2;
    assert Slugs([Slug, Slug, Slug]) == 3;
    assert Slugs([Literal("discussions"), Slug]) == 1;
    assert Slugs([Slug, Slug, Literal("discussions"), Slug]) == 3;
  }

  /** The URL without a base is the pattern with the slugs put in. */
  lemma CanonicalIsPrint(route: Route)
    ensures |CapturesOf(route)| == Slugs(PATTERNS[PatternOf(route)])
    ensures BuildCanonicalUrl(route, "") == Print(PATTERNS[PatternOf(route)], CapturesOf(route))
  {
    assert TrimSlash("") == "";
    match route
    case Thread(user, corpus, thread) => PrintThread(user, corpus, thread);
    case Corpus(user, corpus) => PrintTwo("c", "/c/", user, corpus);
    case DocumentInCorpus(user, corpus, document) => PrintThree("d", "/d/", user, corpus, document);
    case Document(user, document) => PrintTwo("d", "/d/", user, document);
    case Extract(user, extract) => PrintTwo("e", "/e/", user, extract);
  }

  lemma PrintSlug(pattern: Pattern, a: string, captures: seq<string>, rest: string)
    requires |captures| == Slugs(pattern) && Print(pattern, captures) == rest
    ensures Slugs([Slug] + pattern) == |captures| + 1
    ensures Print([Slug] + pattern, [a] + captures) == "/" + a + rest
  {
    assert ([Slug] + pattern)[1..] == pattern && ([a] + captures)[1..] == captures;
  }

  lemma PrintLiteral(text: string, pattern: Pattern, captures: seq<string>, rest: string)
    requires |captures| == Slugs(pattern) && Print(pattern, captures) == rest
    ensures Slugs([Literal(text)] + pattern) == |captures|
    ensures Print([Literal(text)] + pattern, captures) == "/" + text + rest
  {
    assert ([Literal(text)] + pattern)[1..] == pattern;
  }

  lemma PrintOne(a: string)
    ensures Slugs([Slug]) == 1 && Print([Slug], [a]) == "/" + a
  {
    PrintSlug([], a, [], "");
    assert [Slug] + [] == [Slug] && [a] + [] == [a];
    assert "/" + a + "" == "/" + a;
  }

  lemma PrintPair(a: string, b: string)
    ensures Slugs([Slug, Slug]) == 2 && Print([Slug, Slug], [a, b]) == "/" + a + ("/" + b)
  {
    PrintOne(b);
    PrintSlug([Slug], a, [b], "/" + b);
    assert [Slug] + [Slug] == [Slug, Slug] && [a] + [b] == [a, b];
  }

  lemma PrintTwo(kind: string, prefix: string, a: string, b: string)
    requires prefix == "/" + kind + "/"
    ensures var p := [Literal(kind), Slug, Slug];
            Slugs(p) == 2 && Print(p, [a, b]) == "" + prefix + a + "/" + b
  {
    PrintPair(a, b);
    PrintLiteral(kind, [Slug, Slug], [a, b], "/" + a + ("/" + b));
    assert [Literal(kind)] + [Slug, Slug] == [Literal(kind), Slug, Slug];
  }

  lemma PrintThree(kind: string, prefix: string, a: string, b: string, c: string)
    requires prefix == "/" + kind + "/"
    ensures var p := [Literal(kind), Slug, Slug, Slug];
            Slugs(p) == 3 && Print(p, [a, b, c]) == "" + prefix + a + "/" + b + "/" + c
  {
    PrintPair(b, c);
    PrintSlug([Slug, Slug], a, [b, c], "/" + b + ("/" + c));
    assert [Slug] + [Slug, Slug] == [Slug, Slug, Slug] && [a] + [b, c] == [a, b, c];
    PrintLiteral(kind, [Slug, Slug, Slug], [a, b, c], "/" + a + ("/" + b + ("/" + c)));
    assert [Literal(kind)] + [Slug, Slug, Slug] == [Literal(kind), Slug, Slug, Slug];
  }

  lemma PrintThread(a: string, b: string, c: string)
    ensures Slugs(PATTERNS[0]) == 3
    ensures Print(PATTERNS[0], [a, b, c]) == "" + "/c/" + a + "/" + b + "/discussions/" + c
  {
    var tail := [Literal("discussions"), Slug];
    PrintOne(c);
    PrintLiteral("discussions", [Slug], [c], "/" + c);
    assert [Literal("discussions")] + [Slug] == tail;
    var end := "/" + "discussions" + ("/" + c);
    PrintSlug(tail, b, [c], end);
    assert [b] + [c] == [b, c];
    PrintSlug([Slug] + tail, a, [b, c], "/" + b + end);
    assert [a] + [b, c] == [a, b, c];
    PrintLiteral("c", [Slug] + ([Slug] + tail), [a, b, c], "/" + a + ("/" + b + end));
    assert PATTERNS[0] == [Literal("c")] + ([Slug] + ([Slug] + tail));
    assert "/" + "c" + ("/" + a + ("/" + b + end)) == "" + "/c/" + a + "/" + b + "/discussions/" + c;
  }

  lemma RouteOfIsInverse(i: nat, m: seq<string>, route: Route)
    requires i < |PATTERNS| && |m| == Slugs(PATTERNS[i])
    ensures RouteOf(i, m).Some?
    ensures RouteOf(i, m) == Some(route) <==> PatternOf(route) == i && CapturesOf(route) == m
  {
    SlugCounts();
  }

  /**
   The parser is the inverse of the printer: a path parses to a route exactly when its decoded,
   slash-trimmed form is the route's canonical URL and the route's slugs are non-empty and without
   a slash.
   */
  lemma ParseInvertsPrint(pathname: string, route: Route)
    ensures ParseRoute(pathname) == Some(route) <==>
            HasSlugs(route) && PercentDecoding.Decode(TrimSlash(pathname)) == Some(BuildCanonicalUrl(route, ""))
  {
    PatternsAreWellFormed();
    CanonicalIsPrint(route);
    if PercentDecoding.Decode(TrimSlash(pathname)).Some? {
      var path := PercentDecoding.Decode(TrimSlash(pathname)).value;
      MatchIsExact(PATTERNS[PatternOf(route)], path, CapturesOf(route));
      if HasSlugs(route) && path == BuildCanonicalUrl(route, "") {
        AnyMatchIsFirst(path, PatternOf(route), 0);
        RouteOfIsInverse(PatternOf(route), CapturesOf(route), route);
      }
      if FirstMatch(path, 0) == Some(route) {
        MatchedBy(path, 0, route);
      }
    }
  }

  lemma {:induction false} MatchedBy(path: string, from: nat, route: Route)
    requires from <= |PATTERNS| && FirstMatch(path, from) == Some(route)
    ensures Match(PATTERNS[PatternOf(route)], path) == Some(CapturesOf(route))
    decreases |PATTERNS| - from
  {
    if from < |PATTERNS| {
      match Match(PATTERNS[from], path)
      case Some(captures) =>
        MatchIsSound(PATTERNS[from], path);
        RouteOfIsInverse(from, captures, route);
      case None =>
        MatchedBy(path, from + 1, route);
    }
  }

  /** No route at all: decoding fails, or no route prints as the decoded path. */
  lemma NoRoute(pathname: string)
    ensures ParseRoute(pathname).None? <==>
            PercentDecoding.Decode(TrimSlash(pathname)).None? ||
            forall route :: HasSlugs(route) ==>
              PercentDecoding.Decode(TrimSlash(pathname)).value != BuildCanonicalUrl(route, "")
  {
    if ParseRoute(pathname).Some? {
      ParseInvertsPrint(pathname, ParseRoute(pathname).value);
    }
    forall route | HasSlugs(route) && PercentDecoding.Decode(TrimSlash(pathname)) == Some(BuildCanonicalUrl(route, ""))
      ensures ParseRoute(pathname).Some?
    {
      ParseInvertsPrint(pathname, route);
    }
  }

  lemma {:induction false} CanonicalHasNoTrailingSlash(route: Route)
    requires HasSlugs(route)
    ensures TrimSlash(BuildCanonicalUrl(route, "")) == BuildCanonicalUrl(route, "")
    ensures TrimSlash(BuildCanonicalUrl(route, "") + "/") == BuildCanonicalUrl(route, "")
  {
    var m := CapturesOf(route);
    var last := m[|m| - 1];
    var url := BuildCanonicalUrl(route, "");
    assert IsSlug(last) && last[|last| - 1] in last;
    assert url[|url| - 1] == last[|last| - 1];
    assert (url + "/")[..|url|] == url;
  }

  /** The captures of a route have no percent sign. */
  predicate IsPlain(route: Route) {
    forall i :: 0 <= i < |CapturesOf(route)| ==> '%' !in CapturesOf(route)[i]
  }

  lemma PercentInUrl(route: Route)
    ensures '%' in BuildCanonicalUrl(route, "") <==> !IsPlain(route)
  {
    var m := CapturesOf(route);
    var url := BuildCanonicalUrl(route, "");
    assert '%' !in "" && '%' !in "/c/" && '%' !in "/d/" && '%' !in "/e/" && '%' !in "/" && '%' !in "/discussions/";
    assert '%' in url <==> '%' in m[0] || '%' in m[1] || '%' in m[|m| - 1];
  }

  /**
   A printed route parses back, with or without a slash at the end, if and only if its slugs are
   not empty and have neither a slash nor a percent sign.
   */
  lemma PrintedParses(route: Route)
    ensures ParseRoute(BuildCanonicalUrl(route, "")) == Some(route) <==> HasSlugs(route) && IsPlain(route)
    ensures ParseRoute(BuildCanonicalUrl(route, "") + "/") == Some(route) <==> HasSlugs(route) && IsPlain(route)
  {
    var url := BuildCanonicalUrl(route, "");
    ParseInvertsPrint(url, route);
    ParseInvertsPrint(url + "/", route);
    if HasSlugs(route) {
      CanonicalHasNoTrailingSlash(route);
      PercentInUrl(route);
      PercentDecoding.DecodingShortens(url);
    }
  }

  lemma CorpusHasSlugs(user: string, corpus: string)
    requires IsSlug(user)
    ensures HasSlugs(Corpus(user, corpus)) <==> IsSlug(corpus)
  {
    var m := CapturesOf(Corpus(user, corpus));
    assert m[0] == user && m[1] == corpus;
  }

  /** A path whose last segment alone has escapes. */
  lemma LastIsDecoded(front: string, slug: string, decoded: string)
    requires '%' !in front && IsSlug(slug) && PercentDecoding.Decode(slug) == Some(decoded)
    ensures PercentDecoding.Decode(TrimSlash(front + "/" + slug)) == Some(front + "/" + decoded)
  {
    Behind(front, slug);
    PercentDecoding.PlainFront(front + "/", slug);
  }

  /** An encoded corpus slug reads as what it decodes to. */
  lemma EncodedSlugIsDecoded(user: string, slug: string, decoded: string)
    requires IsSlug(user) && '%' !in user && IsSlug(slug) && PercentDecoding.Decode(slug) == Some(decoded)
    ensures ParseRoute(BuildCanonicalUrl(Corpus(user, slug), "")) == Some(Corpus(user, decoded)) <==> IsSlug(decoded)
  {
    CorpusUrl(user, slug);
    CorpusUrl(user, decoded);
    LastIsDecoded("/c/" + user, slug, decoded);
    ParseInvertsPrint("/c/" + user + "/" + slug, Corpus(user, decoded));
    CorpusHasSlugs(user, decoded);
  }

  lemma CorpusUrl(user: string, corpus: string)
    ensures BuildCanonicalUrl(Corpus(user, corpus), "") == "/c/" + user + "/" + corpus
  {
    assert TrimSlash("") + "/c/" == "/c/";
  }

  /** A doubly encoded slug reads as one that is still encoded, and whose own URL leads to another route. */
  lemma DoublyEncodedIsUnstable(user: string)
    requires IsSlug(user) && '%' !in user
    ensures ParseRoute(BuildCanonicalUrl(Corpus(user, "%2541"), "")) == Some(Corpus(user, "%41"))
    ensures ParseRoute(BuildCanonicalUrl(Corpus(user, "%41"), "")) == Some(Corpus(user, "A"))
  {
    Escapes();
    assert '/' !in "%2541" && '/' !in "%41" && '/' !in "A";
    EncodedSlugIsDecoded(user, "%2541", "%41");
    EncodedSlugIsDecoded(user, "%41", "A");
  }

  lemma Escapes()
    ensures PercentDecoding.Decode("%2541") == Some("%41") && PercentDecoding.Decode("%41") == Some("A")
  {
    assert "%2541"[3..] == "41" && "%41"[3..] == "";
    PercentDecoding.DecodingShortens("41");
    assert PercentDecoding.ByteAt("%2541", 0) == Some(0x25) && PercentDecoding.ByteAt("%41", 0) == Some(0x41);
    assert ['%'] + "41" == "%41" && ['A'] + "" == "A";
  }

  lemma Behind(front: string, last: string)
    requires IsSlug(last)
    ensures TrimSlash(front + "/" + last) == front + "/" + last
  {
    var s := front + "/" + last;
    assert s[|s| - 1] == last[|last| - 1] && last[|last| - 1] in last;
  }

  /** A base only goes in front, with at most one slash of its own dropped. */
  lemma {:induction false} BaseGoesInFront(route: Route, baseUrl: string)
    ensures BuildCanonicalUrl(route, baseUrl) == TrimSlash(baseUrl) + BuildCanonicalUrl(route, "")
  {
    var base := TrimSlash(baseUrl);
    assert TrimSlash("") == "";
    match route
    case Thread(user, corpus, thread) => ThreeInFront(base, "/c/", user, "/", corpus, "/discussions/", thread);
    case Corpus(user, corpus) => TwoInFront(base, "/c/", user, "/", corpus);
    case DocumentInCorpus(user, corpus, document) => ThreeInFront(base, "/d/", user, "/", corpus, "/", document);
    case Document(user, document) => TwoInFront(base, "/d/", user, "/", document);
    case Extract(user, extract) => TwoInFront(base, "/e/", user, "/", extract);
  }

  lemma TwoInFront(base: string, p: string, a: string, q: string, b: string)
    ensures base + p + a + q + b == base + ("" + p + a + q + b)
  {
  }

  lemma ThreeInFront(base: string, p: string, a: string, q: string, b: string, r: string, c: string)
    ensures base + p + a + q + b + r + c == base + ("" + p + a + q + b + r + c)
  {
    TwoInFront(base, p, a, q, b);
    assert base + ("" + p + a + q + b) + r + c == base + ("" + p + a + q + b + r + c);
  }
}
