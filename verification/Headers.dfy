/**
 Security headers (`_build_csp`, `_build_permissions_policy` and `__call__` of
 `config/middleware.py`), read back as section 2.2.1 "Parse a serialized CSP" of Content
 Security Policy Level 3 reads them. A Python dictionary is the sequence of its items.
 */
module Headers {
  import opened Wrappers
  import opened Sequences
  import opened Text
  import opened Words

  datatype Directive = Directive(name: string, values: seq<string>)

  /* ---------- Writing ---------- */

  predicate TakesNonce(name: string) {
    name == "script-src" || name == "script-src-elem"
  }

  function NonceSource(nonce: string): string {
    "'nonce-" + nonce + "'"
  }

  /** The directives of a response: the nonce source at the end of exactly the script directives. */
  function WithNonce(directives: seq<Directive>, nonce: Option<string>): (r: seq<Directive>)
    ensures |r| == |directives|
    ensures forall i :: 0 <= i < |r| ==> r[i] == OneWithNonce(directives[i], nonce)
  {
    seq(|directives|, i requires 0 <= i < |directives| => OneWithNonce(directives[i], nonce))
  }

  /** A nonce that is absent or empty adds nothing. */
  function OneWithNonce(d: Directive, nonce: Option<string>): Directive {
    if nonce.GetOr("") != "" && TakesNonce(d.name) then d.(values := d.values + [NonceSource(nonce.value)]) else d
  }

  function Part(d: Directive): string {
    d.name + " " + JoinWords(d.values)
  }

  function Parts(directives: seq<Directive>): (r: seq<string>)
    ensures |r| == |directives| && forall i :: 0 <= i < |r| ==> r[i] == Part(directives[i])
  {
    seq(|directives|, i requires 0 <= i < |directives| => Part(directives[i]))
  }

  function Serialize(directives: seq<Directive>): string {
    Join("; ", Parts(directives))
  }

  /** `_build_csp` */
  method BuildCsp(directives: seq<Directive>, nonce: Option<string>) returns (r: Option<string>)
    ensures directives == [] ==> r == None
    ensures directives != [] ==> r == Some(Serialize(WithNonce(directives, nonce)))
  {
    if directives == [] {
      return None;
    }
    var parts: seq<string> := [];
    for i := 0 to |directives|
      invariant |parts| == i && forall j :: 0 <= j < i ==> parts[j] == Part(OneWithNonce(directives[j], nonce))
    {
      var directive, values := directives[i].name, directives[i].values;
      if nonce.Some? && nonce.value != "" && (directive == "script-src" || directive == "script-src-elem") {
        values := values + ["'nonce-" + nonce.value + "'"];
      }
      parts := parts + [directive + " " + JoinWords(values)];
    }
    assert parts == Parts(WithNonce(directives, nonce));
    return Some(Join("; ", parts));
  }

  /* ---------- Reading, as a browser does ---------- */

  predicate IsAsciiSpace(c: char) {
    c == '\t' || c == '\n' || c == '\U{000C}' || c == '\r' || c == ' '
  }

  /** Where the code points that are not white space end. */
  function NameEnd(token: string): (n: nat)
    ensures n <= |token| && (forall i :: 0 <= i < n ==> !IsAsciiSpace(token[i])) &&
            (n < |token| ==> IsAsciiSpace(token[n]))
  {
    if token == "" || IsAsciiSpace(token[0]) then 0 else 1 + NameEnd(token[1..])
  }

  function ParseToken(token: string): Option<Directive> {
    var t := Strip(IsAsciiSpace, token);
    if t == "" || !IsAscii(t) then None
    else Some(Directive(Lower(t[..NameEnd(t)]), SplitBy(IsAsciiSpace, t[NameEnd(t)..])))
  }

  predicate HasName(directives: seq<Directive>, name: string) {
    exists i :: 0 <= i < |directives| && directives[i].name == name
  }

  /** The first directive of a name counts. */
  function ParseTokens(tokens: seq<string>): seq<Directive> {
    if tokens == [] then []
    else
      var before := ParseTokens(tokens[..|tokens| - 1]);
      match ParseToken(tokens[|tokens| - 1])
      case None => before
      case Some(d) => if HasName(before, d.name) then before else before + [d]
  }

  function Parse(serialized: string): seq<Directive> {
    ParseTokens(SplitOn(';', serialized))
  }

  /** Section 2.2.2: a header holds policies separated by commas. Policies without directives are dropped. */
  function ParseHeader(header: string): seq<seq<Directive>> {
    Policies(SplitOn(',', header))
  }

  function Policies(tokens: seq<string>): seq<seq<Directive>> {
    if tokens == [] then []
    else (if Parse(tokens[0]) == [] then [] else [Parse(tokens[0])]) + Policies(tokens[1..])
  }

  /* ---------- What can be read back ---------- */

  predicate IsPlain(s: string) {
    IsTokenOf(IsAsciiSpace, s) && IsAscii(s) && ';' !in s
  }

  predicate IsName(s: string) {
    IsPlain(s) && Lower(s) == s
  }

  predicate IsDirective(d: Directive) {
    IsName(d.name) && forall i :: 0 <= i < |d.values| ==> IsPlain(d.values[i])
  }

  predicate AreDistinct(directives: seq<Directive>) {
    forall i, j :: 0 <= i < j < |directives| ==> directives[i].name != directives[j].name
  }

  predicate AreDirectives(directives: seq<Directive>) {
    AreDistinct(directives) && forall i :: 0 <= i < |directives| ==> IsDirective(directives[i])
  }

  lemma {:induction false} NameEndIs(name: string, rest: string)
    requires (forall i :: 0 <= i < |name| ==> !IsAsciiSpace(name[i])) && (rest == "" || IsAsciiSpace(rest[0]))
    ensures NameEnd(name + rest) == |name|
  {
    if name == "" {
      assert name + rest == rest;
    } else {
      assert (name + rest)[1..] == name[1..] + rest;
      NameEndIs(name[1..], rest);
    }
  }

  /** Of joined tokens, the last character is that of the last token, and all are from tokens or spaces. */
  lemma {:induction false} JoinedEnd(values: seq<string>)
    requires forall i :: 0 <= i < |values| ==> IsPlain(values[i])
    ensures IsAscii(JoinWords(values)) && ';' !in JoinWords(values)
    ensures values != [] ==> JoinWords(values) != "" && !IsAsciiSpace(JoinWords(values)[|JoinWords(values)| - 1])
  {
    if |values| > 1 {
      JoinedEnd(values[1..]);
    }
  }

  lemma NoneToStrip(s: string)
    requires s != "" && !IsAsciiSpace(s[|s| - 1])
    ensures StripRight(IsAsciiSpace, s) == s && StripRight(IsAsciiSpace, s + " ") == s
  {
    assert (s + " ")[|s|] == ' ' && (s + " ")[..|s|] == s;
  }

  /** Stripping a written directive takes the space in front, and the one behind a name without sources. */
  lemma PartIsStripped(d: Directive, lead: string)
    requires IsDirective(d) && (lead == "" || lead == " ")
    ensures Strip(IsAsciiSpace, lead + Part(d)) == if d.values == [] then d.name else Part(d)
    ensures IsAscii(Part(d)) && ';' !in Part(d)
  {
    var part := Part(d);
    JoinedEnd(d.values);
    StripLead(lead, part);
    if d.values == [] {
      assert part == d.name + " ";
      NoneToStrip(d.name);
    } else {
      assert part[|part| - 1] == JoinWords(d.values)[|JoinWords(d.values)| - 1];
      NoneToStrip(part);
    }
  }

  lemma ReadsAs(token: string, name: string, rest: string)
    requires IsName(name) && (rest == "" || IsAsciiSpace(rest[0]))
    requires Strip(IsAsciiSpace, token) == name + rest && IsAscii(name + rest)
    ensures ParseToken(token) == Some(Directive(name, SplitBy(IsAsciiSpace, rest)))
  {
    NameEndIs(name, rest);
    assert (name + rest)[..|name|] == name && (name + rest)[|name|..] == rest;
  }

  lemma BareReads(token: string, d: Directive)
    requires IsDirective(d) && d.values == [] && Strip(IsAsciiSpace, token) == d.name
    ensures ParseToken(token) == Some(d)
  {
    assert d.name + "" == d.name;
    ReadsAs(token, d.name, "");
  }

  lemma FullReads(token: string, d: Directive)
    requires IsDirective(d) && Strip(IsAsciiSpace, token) == Part(d) && IsAscii(Part(d))
    ensures ParseToken(token) == Some(d)
  {
    var rest := " " + JoinWords(d.values);
    assert d.name + rest == Part(d);
    SplitSpaced(d.values);
    ReadsAs(token, d.name, rest);
  }

  /** A written directive reads back, with or without white space in front. */
  lemma PartReadsBack(d: Directive, lead: string)
    requires IsDirective(d) && (lead == "" || lead == " ")
    ensures ParseToken(lead + Part(d)) == Some(d) && ';' !in Part(d)
  {
    PartIsStripped(d, lead);
    if d.values == [] {
      BareReads(lead + Part(d), d);
    } else {
      FullReads(lead + Part(d), d);
    }
  }

  lemma StripLead(lead: string, part: string)
    requires (lead == "" || lead == " ") && part != "" && !IsAsciiSpace(part[0])
    ensures StripLeft(IsAsciiSpace, lead + part) == part
  {
    assert StripLeft(IsAsciiSpace, part) == part;
    if lead == "" {
      assert lead + part == part;
    } else {
      assert (lead + part)[0] == ' ' && (lead + part)[1..] == part;
    }
  }

  lemma SplitSpaced(values: seq<string>)
    requires forall i :: 0 <= i < |values| ==> IsPlain(values[i])
    ensures SplitBy(IsAsciiSpace, " " + JoinWords(values)) == values
  {
    SplitJoined(IsAsciiSpace, values);
    assert (" " + JoinWords(values))[1..] == JoinWords(values);
    assert Flush("") == [];
  }

  lemma {:induction false} TokensReadBack(directives: seq<Directive>, tokens: seq<string>)
    requires AreDirectives(directives) && |tokens| == |directives|
    requires forall i :: 0 <= i < |tokens| ==> ParseToken(tokens[i]) == Some(directives[i])
    ensures ParseTokens(tokens) == directives
  {
    if tokens != [] {
      var n := |tokens| - 1;
      TokensReadBack(directives[..n], tokens[..n]);
      assert !HasName(directives[..n], directives[n].name);
      TakeOne(directives, n);
      TakeAll(directives);
    }
  }

  lemma TokensOfWritten(directives: seq<Directive>)
    requires directives != [] && AreDirectives(directives)
    ensures SplitOn(';', Serialize(directives)) == Glued("", " ", Parts(directives))
  {
    forall i | 0 <= i < |directives| ensures ';' !in Parts(directives)[i] {
      PartReadsBack(directives[i], "");
    }
    SplitOnJoined(';', "", " ", Parts(directives));
    assert [';'] + " " == "; " && "" + Serialize(directives) == Serialize(directives);
  }

  lemma NothingReadsBack()
    ensures Parse("") == []
  {
    assert SplitOn(';', "") == [""] && [""][..0] == [];
    assert ParseToken("") == None;
  }

  lemma WrittenReadsBack(directives: seq<Directive>)
    requires AreDirectives(directives)
    ensures Parse(Serialize(directives)) == directives
  {
    if directives == [] {
      NothingReadsBack();
    } else {
      TokensOfWritten(directives);
      var tokens := Glued("", " ", Parts(directives));
      forall i | 0 <= i < |tokens| ensures ParseToken(tokens[i]) == Some(directives[i]) {
        PartReadsBack(directives[i], if i == 0 then "" else " ");
      }
      TokensReadBack(directives, tokens);
    }
  }

  lemma LowerTwice(s: string)
    ensures Lower(Lower(s)) == Lower(s)
  {
  }

  /** Whatever is parsed is a well-formed directive. */
  lemma ParsedIsDirective(token: string)
    requires ';' !in token && ParseToken(token).Some?
    ensures IsDirective(ParseToken(token).value)
  {
    var t := Strip(IsAsciiSpace, token);
    StripStrips(IsAsciiSpace, token);
    var n := NameEnd(t);
    var name, rest := t[..n], t[n..];
    LowerTwice(name);
    assert !IsAsciiSpace(t[0]) && n > 0;
    assert ';' !in name && ';' !in rest;
    SplitYieldsTokens(IsAsciiSpace, rest, "");
    assert "" + rest == rest;
    var values := SplitBy(IsAsciiSpace, rest);
    forall i | 0 <= i < |values| ensures IsPlain(values[i]) {
      assert values[i] in values;
      forall k | 0 <= k < |values[i]| ensures values[i][k] < '\U{0080}' {
        assert values[i][k] in values[i];
        assert values[i][k] in rest;
      }
    }
    forall k | 0 <= k < n
      ensures !IsAsciiSpace(Lower(name)[k]) && Lower(name)[k] < '\U{0080}' && Lower(name)[k] != ';'
    {
      assert name[k] == t[k] && name[k] in name;
    }
  }

  lemma {:induction false} ParsedAreDirectives(tokens: seq<string>)
    requires AreFree(';', tokens)
    ensures AreDirectives(ParseTokens(tokens))
  {
    if tokens != [] {
      ParsedAreDirectives(tokens[..|tokens| - 1]);
      if ParseToken(tokens[|tokens| - 1]).Some? {
        ParsedIsDirective(tokens[|tokens| - 1]);
      }
    }
  }

  /**
   The header reads back as the configured directives, with the nonce source added to exactly the
   script directives, if and only if those are well formed: distinct lower-case names, and names
   and sources of ASCII characters without white space and semicolon.
   */
  lemma CspRoundTrip(directives: seq<Directive>, nonce: Option<string>)
    ensures var sent := WithNonce(directives, nonce);
            Parse(Serialize(sent)) == sent <==> AreDirectives(sent)
  {
    var sent := WithNonce(directives, nonce);
    if AreDirectives(sent) {
      WrittenReadsBack(sent);
    }
    ParsedAreDirectives(SplitOn(';', Serialize(sent)));
  }

  /** A plain nonce keeps well-formed directives well formed, and a nonce that is not breaks them if it is used. */
  lemma NonceMustBePlain(directives: seq<Directive>, nonce: string)
    requires AreDirectives(directives) && nonce != ""
    ensures AreDirectives(WithNonce(directives, Some(nonce))) <==>
            IsPlain(nonce) || forall i :: 0 <= i < |directives| ==> !TakesNonce(directives[i].name)
  {
    var sent := WithNonce(directives, Some(nonce));
    SourceIsPlain(nonce);
    assert AreDistinct(sent);
    forall i | 0 <= i < |directives|
      ensures IsDirective(sent[i]) <==> (IsPlain(nonce) || !TakesNonce(directives[i].name))
    {
      var values := sent[i].values;
      if TakesNonce(directives[i].name) {
        assert values[|values| - 1] == NonceSource(nonce);
        assert forall k :: 0 <= k < |directives[i].values| ==> values[k] == directives[i].values[k];
      }
    }
  }

  lemma SourceIsPlain(nonce: string)
    requires nonce != ""
    ensures IsPlain(NonceSource(nonce)) <==> IsPlain(nonce)
  {
    var front := "'nonce-";
    var source := front + nonce + "'";
    assert IsPlain(front) && IsPlain("'");
    forall i | 0 <= i < |nonce| ensures nonce[i] == source[|front| + i] {
    }
    assert forall i :: 0 <= i < |source| ==>
        source[i] == if i < |front| then front[i] else if i < |front| + |nonce| then nonce[i - |front|] else '\'';
    if ';' in nonce {
      var i :| 0 <= i < |nonce| && nonce[i] == ';';
      assert source[|front| + i] == ';';
    }
  }

  predicate CommaFree(d: Directive) {
    ',' !in d.name && AreFree(',', d.values)
  }

  lemma {:induction false} JoinIsFree(c: char, separator: string, parts: seq<string>)
    requires c !in separator && AreFree(c, parts)
    ensures c !in Join(separator, parts)
  {
    if |parts| > 1 {
      JoinIsFree(c, separator, parts[1..]);
    }
  }

  predicate AreCommaFree(directives: seq<Directive>) {
    forall i :: 0 <= i < |directives| ==> CommaFree(directives[i])
  }

  lemma CommaFreeIsOnePolicy(sent: seq<Directive>)
    requires sent != [] && AreDirectives(sent) && AreCommaFree(sent)
    ensures ParseHeader(Serialize(sent)) == [sent]
  {
    forall i | 0 <= i < |sent| ensures ',' !in Parts(sent)[i] {
      assert CommaFree(sent[i]);
      JoinIsFree(',', " ", sent[i].values);
    }
    JoinIsFree(',', "; ", Parts(sent));
    SplitOnFirst(',', Serialize(sent), "");
    WrittenReadsBack(sent);
    var tokens := [Serialize(sent)];
    assert tokens[1..] == [] && Policies([]) == [];
  }

  lemma {:induction false} SplitOnKeeps(c: char, s: string)
    ensures forall i :: 0 <= i < |SplitOn(c, s)| ==> IsFrom(SplitOn(c, s)[i], s)
  {
    if s != "" {
      SplitOnKeeps(c, s[1..]);
      assert s == [s[0]] + s[1..];
    }
  }

  /** A directive read from a text without commas has none. */
  lemma ParsedIsCommaFree(token: string)
    requires ',' !in token && ParseToken(token).Some?
    ensures CommaFree(ParseToken(token).value)
  {
    var t := Strip(IsAsciiSpace, token);
    StripStrips(IsAsciiSpace, token);
    var n := NameEnd(t);
    var name, rest := t[..n], t[n..];
    assert ',' !in rest;
    SplitYieldsTokens(IsAsciiSpace, rest, "");
    assert "" + rest == rest;
    var values := SplitBy(IsAsciiSpace, rest);
    forall i | 0 <= i < |values| ensures ',' !in values[i] {
      assert values[i] in values;
    }
    forall k | 0 <= k < n ensures Lower(name)[k] != ',' {
      assert name[k] == t[k] && t[k] in t;
    }
  }

  lemma {:induction false} ParsedAreCommaFree(tokens: seq<string>)
    requires AreFree(',', tokens)
    ensures AreCommaFree(ParseTokens(tokens))
  {
    if tokens != [] {
      ParsedAreCommaFree(tokens[..|tokens| - 1]);
      if ParseToken(tokens[|tokens| - 1]).Some? {
        ParsedIsCommaFree(tokens[|tokens| - 1]);
      }
    }
  }

  /** Every policy of a header is well formed, has directives, and none of them has a comma. */
  lemma {:induction false} PoliciesAre(tokens: seq<string>)
    requires AreFree(',', tokens)
    ensures forall i :: 0 <= i < |Policies(tokens)| ==>
              var policy := Policies(tokens)[i]; policy != [] && AreDirectives(policy) && AreCommaFree(policy)
  {
    if tokens != [] {
      var parts := SplitOn(';', tokens[0]);
      SplitOnKeeps(';', tokens[0]);
      ParsedAreDirectives(parts);
      ParsedAreCommaFree(parts);
      PoliciesAre(tokens[1..]);
    }
  }

  /**
   The header holds that one policy if and only if it has directives, and they are well formed and
   without commas.
   */
  lemma HeaderIsOnePolicy(directives: seq<Directive>, nonce: Option<string>)
    ensures var sent := WithNonce(directives, nonce);
            ParseHeader(Serialize(sent)) == [sent] <==> sent != [] && AreDirectives(sent) && AreCommaFree(sent)
  {
    var sent := WithNonce(directives, nonce);
    if sent != [] && AreDirectives(sent) && AreCommaFree(sent) {
      CommaFreeIsOnePolicy(sent);
    }
    PoliciesAre(SplitOn(',', Serialize(sent)));
    if ParseHeader(Serialize(sent)) == [sent] {
      assert Policies(SplitOn(',', Serialize(sent)))[0] == sent;
    }
  }

  /* ---------- Permissions-Policy ---------- */

  function Allowlist(d: Directive): string {
    if d.values == [] then d.name + "=()" else d.name + "=(" + JoinWords(d.values) + ")"
  }

  function Allowlists(features: seq<Directive>): (r: seq<string>)
    ensures |r| == |features| && forall i :: 0 <= i < |r| ==> r[i] == Allowlist(features[i])
  {
    seq(|features|, i requires 0 <= i < |features| => Allowlist(features[i]))
  }

  /** `_build_permissions_policy` */
  method BuildPermissionsPolicy(features: seq<Directive>) returns (r: Option<string>)
    ensures features == [] ==> r == None
    ensures features != [] ==> r == Some(Join(", ", Allowlists(features)))
  {
    if features == [] {
      return None;
    }
    var parts: seq<string> := [];
    for i := 0 to |features|
      invariant |parts| == i && forall j :: 0 <= j < i ==> parts[j] == Allowlist(features[j])
    {
      if features[i].values != [] {
        parts := parts + [features[i].name + "=(" + JoinWords(features[i].values) + ")"];
      } else {
        parts := parts + [features[i].name + "=()"];
      }
    }
    assert parts == Allowlists(features);
    return Some(Join(", ", parts));
  }

  /* ---------- The middleware ---------- */

  class Request {
    var cspNonce: Option<string>
  }

  class Response {
    var headers: map<string, string>
  }

  const CSP := "Content-Security-Policy"
  const PERMISSIONS := "Permissions-Policy"

  class SecurityHeadersMiddleware {
    const directives: seq<Directive>
    const permissions: Option<string>

    constructor (directives: seq<Directive>, features: seq<Directive>)
      ensures this.directives == directives
      ensures permissions == if features == [] then None else Some(Join(", ", Allowlists(features)))
    {
      this.directives := directives;
      var p := BuildPermissionsPolicy(features);
      this.permissions := p;
    }

    /**
     `__call__`, with the token drawn for the nonce and the response that the rest of the
     application gives: request and response get the same nonce, and other headers stay.
     */
    method Call(request: Request, response: Response, token: string)
      requires token != ""
      modifies request, response
      ensures directives != [] ==>
                && request.cspNonce == Some(token)
                && CSP in response.headers
                && response.headers[CSP] == Serialize(WithNonce(directives, request.cspNonce))
      ensures directives == [] ==> request.cspNonce == old(request.cspNonce)
      ensures permissions.GetOr("") != "" ==>
              PERMISSIONS in response.headers && response.headers[PERMISSIONS] == permissions.value
      ensures forall h :: !(h == CSP && directives != []) && !(h == PERMISSIONS && permissions.GetOr("") != "") ==>
                (h in response.headers <==> h in old(response.headers)) &&
                (h in response.headers ==> response.headers[h] == old(response.headers)[h])
    {
      var nonce: Option<string> := None;
      if directives != [] {
        nonce := Some(token);
        request.cspNonce := nonce;
      }
      if directives != [] {
        var csp := BuildCsp(directives, nonce);
        response.headers := response.headers[CSP := csp.value];
      }
      if permissions.GetOr("") != "" {
        response.headers := response.headers[PERMISSIONS := permissions.value];
      }
    }
  }
}
