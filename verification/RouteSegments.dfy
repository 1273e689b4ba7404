/** Deep links as segments between slashes, and as UTF-8 in percent escapes. */
module RouteSegments {
  import opened Wrappers
  import opened Text
  import opened Routes
  import Utf8

  /** What stands between the slashes of a route's URL. */
  function SegmentsOf(route: Route): seq<string> {
    match route
    case Thread(user, corpus, thread) => ["", "c", user, corpus, "discussions", thread]
    case Corpus(user, corpus) => ["", "c", user, corpus]
    case DocumentInCorpus(user, corpus, document) => ["", "d", user, corpus, document]
    case Document(user, document) => ["", "d", user, document]
    case Extract(user, extract) => ["", "e", user, extract]
  }

  /** The text without one slash at its end, if it has one. */
  predicate IsTrimmed(s: string, trimmed: string) {
    s == trimmed + "/" || (s == trimmed && (s == "" || s[|s| - 1] != '/'))
  }

  lemma TrimExactly(s: string, trimmed: string)
    ensures TrimSlash(s) == trimmed <==> IsTrimmed(s, trimmed)
  {
    if s != "" && s[|s| - 1] == '/' {
      assert s == s[..|s| - 1] + "/";
    }
    if s == trimmed + "/" {
      assert s[..|s| - 1] == trimmed;
    }
  }

  lemma JoinTwo(a: string, b: string)
    ensures Join("/", [a, b]) == a + "/" + b
  {
    assert [a, b][1..] == [b];
  }

  lemma JoinMore(a: string, rest: seq<string>)
    requires rest != []
    ensures Join("/", [a] + rest) == a + "/" + Join("/", rest)
  {
    assert ([a] + rest)[1..] == rest;
  }

  lemma JoinShort(kind: string, a: string, b: string)
    ensures Join("/", ["", kind, a, b]) == "/" + kind + "/" + a + "/" + b
  {
    JoinTwo(a, b);
    JoinMore(kind, [a, b]);
    JoinMore("", [kind] + [a, b]);
    assert ["", kind, a, b] == [""] + ([kind] + [a, b]);
  }

  lemma JoinLong(kind: string, a: string, b: string, rest: seq<string>)
    requires rest != []
    ensures Join("/", ["", kind, a, b] + rest) == "/" + kind + "/" + a + "/" + b + "/" + Join("/", rest)
  {
    JoinMore(b, rest);
    JoinMore(a, [b] + rest);
    JoinMore(kind, [a] + ([b] + rest));
    JoinMore("", [kind] + ([a] + ([b] + rest)));
    assert ["", kind, a, b] + rest == [""] + ([kind] + ([a] + ([b] + rest)));
  }

  /** A canonical URL is the base, without a slash at its end, and the segments joined by slashes. */
  lemma UrlIsJoined(route: Route, baseUrl: string)
    ensures BuildCanonicalUrl(route, baseUrl) == TrimSlash(baseUrl) + Join("/", SegmentsOf(route))
  {
    BaseGoesInFront(route, baseUrl);
    PathIsJoined(route);
  }

  lemma ShortPath(kind: string, lead: string, a: string, b: string)
    requires lead == "/" + kind + "/"
    ensures Join("/", ["", kind, a, b]) == "" + lead + a + "/" + b
  {
    JoinShort(kind, a, b);
    assert "" + lead == lead;
  }

  lemma LongPath(kind: string, lead: string, a: string, b: string, rest: seq<string>)
    requires lead == "/" + kind + "/" && rest != []
    ensures Join("/", ["", kind, a, b] + rest) == "" + lead + a + "/" + b + "/" + Join("/", rest)
  {
    JoinLong(kind, a, b, rest);
    assert "" + lead == lead;
  }

  lemma ThreadPath(user: string, corpus: string, thread: string)
    ensures Join("/", ["", "c", user, corpus, "discussions", thread]) ==
            "" + "/c/" + user + "/" + corpus + "/discussions/" + thread
  {
    LongPath("c", "/c/", user, corpus, ["discussions", thread]);
    JoinTwo("discussions", thread);
    assert ["", "c", user, corpus, "discussions", thread] == ["", "c", user, corpus] + ["discussions", thread];
    var front := "" + "/c/" + user + "/" + corpus;
    assert front + "/" + ("discussions" + "/" + thread) == front + "/discussions/" + thread;
  }

  lemma DocumentPath(user: string, corpus: string, document: string)
    ensures Join("/", ["", "d", user, corpus, document]) == "" + "/d/" + user + "/" + corpus + "/" + document
  {
    LongPath("d", "/d/", user, corpus, [document]);
    assert ["", "d", user, corpus, document] == ["", "d", user, corpus] + [document];
  }

  lemma PathIsJoined(route: Route)
    ensures BuildCanonicalUrl(route, "") == Join("/", SegmentsOf(route))
  {
    assert TrimSlash("") == "";
    match route
    case Thread(user, corpus, thread) => ThreadPath(user, corpus, thread);
    case Corpus(user, corpus) => ShortPath("c", "/c/", user, corpus);
    case DocumentInCorpus(user, corpus, document) => DocumentPath(user, corpus, document);
    case Document(user, document) => ShortPath("d", "/d/", user, document);
    case Extract(user, extract) => ShortPath("e", "/e/", user, extract);
  }

  /** Every segment behind the first is non-empty and has no slash. */
  predicate AllSlugs(segments: seq<string>) {
    forall i :: 1 <= i < |segments| ==> segments[i] != "" && '/' !in segments[i]
  }

  lemma SlugsAreSegments(route: Route)
    ensures HasSlugs(route) <==> AllSlugs(SegmentsOf(route))
  {
    var segments, m := SegmentsOf(route), CapturesOf(route);
    assert IsSlug("c") && IsSlug("d") && IsSlug("e") && IsSlug("discussions");
    if AllSlugs(segments) {
      assert IsSlug(segments[2]) && IsSlug(segments[3]) && IsSlug(segments[|segments| - 1]);
    }
    if HasSlugs(route) {
      assert IsSlug(m[0]) && IsSlug(m[1]) && IsSlug(m[|m| - 1]);
    }
  }

  /**
   A path leads to a route if and only if, but for a slash at its end, it writes the route's segments,
   joined by slashes, in UTF-8 with any of its characters in percent escapes, and no segment is empty
   or has a slash in it.
   */
  lemma ParsesBySegments(pathname: string, route: Route)
    ensures ParseRoute(pathname) == Some(route) <==>
            && AllSlugs(SegmentsOf(route))
            && exists trimmed :: IsTrimmed(pathname, trimmed) &&
                                 Utf8.IsEncoding(trimmed, Join("/", SegmentsOf(route)))
  {
    ParseInvertsPrint(pathname, route);
    SlugsAreSegments(route);
    PathIsJoined(route);
    var url := Join("/", SegmentsOf(route));
    TrimExactly(pathname, TrimSlash(pathname));
    Utf8.DecodeInvertsEncoding(TrimSlash(pathname), url);
    if trimmed :| IsTrimmed(pathname, trimmed) && Utf8.IsEncoding(trimmed, url) {
      TrimExactly(pathname, trimmed);
    }
  }
}
