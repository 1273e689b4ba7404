/**
 The permissions policy that `_build_permissions_policy` of `config/middleware.py` writes, read
 back as a dictionary of inner lists of tokens and strings (RFC 8941, sections 4.2.1.2, 4.2.2,
 4.2.3.3, 4.2.5 and 4.2.6). Other items, and parameters, are read as failures here.
 */
module PermissionsPolicy {
  import opened Wrappers
  import opened Text
  import opened Words
  import opened Headers

  /* ---------- Reading ---------- */

  predicate IsLower(c: char) {
    'a' <= c <= 'z'
  }

  predicate IsAlphaNumeric(c: char) {
    IsLower(c) || 'A' <= c <= 'Z' || '0' <= c <= '9'
  }

  predicate IsKeyStart(c: char) {
    IsLower(c) || c == '*'
  }

  predicate IsKeyChar(c: char) {
    IsKeyStart(c) || '0' <= c <= '9' || c == '_' || c == '-' || c == '.'
  }

  predicate IsTokenStart(c: char) {
    IsLower(c) || 'A' <= c <= 'Z' || c == '*'
  }

  predicate IsTokenChar(c: char) {
    IsAlphaNumeric(c) || c in "!#$%&'*+-.^_`|~:/"
  }

  predicate IsPrintable(c: char) {
    ' ' <= c <= '~'
  }

  /** How many characters from the front satisfy `p`. */
  function Run(p: char -> bool, s: string): (n: nat)
    ensures n <= |s|
    ensures forall i :: 0 <= i < n ==> p(s[i])
    ensures n < |s| ==> !p(s[n])
  {
    if s == "" || !p(s[0]) then 0 else 1 + Run(p, s[1..])
  }

  /** Where the string ends whose opening quote stands before `s`: behind its closing quote. */
  function StringEnd(s: string): (n: Option<nat>)
    ensures n.Some? ==> 0 < n.value <= |s|
  {
    if s == "" then None
    else if s[0] == '"' then Some(1)
    else if s[0] == '\\' then
      if |s| > 1 && (s[1] == '"' || s[1] == '\\') then Later(StringEnd(s[2..]), 2) else None
    else if IsPrintable(s[0]) then Later(StringEnd(s[1..]), 1)
    else None
  }

  function Later(n: Option<nat>, more: nat): Option<nat> {
    match n
    case None => None
    case Some(k) => Some(k + more)
  }

  /** Where the token or string at the front ends. */
  function ItemEnd(s: string): (n: Option<nat>)
    ensures n.Some? ==> 0 < n.value <= |s|
  {
    if s == "" then None
    else if s[0] == '"' then Later(StringEnd(s[1..]), 1)
    else if IsTokenStart(s[0]) then Some(1 + Run(IsTokenChar, s[1..]))
    else None
  }

  /** The items up to the closing parenthesis, and what follows it. */
  function ReadItems(s: string): (r: Option<(seq<string>, string)>)
    ensures r.Some? ==> |r.value.1| < |s|
    decreases |s|
  {
    if s == "" then None
    else if s[0] == ' ' then ReadItems(s[1..])
    else if s[0] == ')' then Some(([], s[1..]))
    else
      match ItemEnd(s)
      case None => None
      case Some(n) =>
        if n == |s| || (s[n] != ' ' && s[n] != ')') then None
        else
          match ReadItems(s[n..])
          case None => None
          case Some((items, rest)) => Some(([s[..n]] + items, rest))
  }

  predicate IsOptionalSpace(c: char) {
    c == ' ' || c == '\t'
  }

  /** What follows the comma behind a member; `None` if there is something else, or nothing behind the comma. */
  function NextMember(s: string): (r: Option<string>)
    ensures r.Some? ==> |r.value| < |s|
  {
    var t := s[Run(IsOptionalSpace, s)..];
    if t == "" || t[0] != ',' then None
    else
      var u := t[1..][Run(IsOptionalSpace, t[1..])..];
      if u == "" then None else Some(u)
  }

  predicate IsEnd(s: string) {
    Run(IsOptionalSpace, s) == |s|
  }

  /** One member: its key, its items, and what follows. */
  function ReadMember(s: string): (r: Option<(Directive, string)>)
    ensures r.Some? ==> |r.value.1| < |s|
  {
    if s == "" || !IsKeyStart(s[0]) then None
    else
      var n := 1 + Run(IsKeyChar, s[1..]);
      if n + 2 > |s| || s[n] != '=' || s[n + 1] != '(' then None
      else
        match ReadItems(s[n + 2..])
        case None => None
        case Some((items, rest)) => Some((Directive(s[..n], items), rest))
  }

  function ReadMembers(s: string): Option<seq<Directive>>
    decreases |s|
  {
    match ReadMember(s)
    case None => None
    case Some((member, rest)) =>
      if IsEnd(rest) then Some([member])
      else
        match NextMember(rest)
        case None => None
        case Some(more) =>
          match ReadMembers(more)
          case None => None
          case Some(members) => Some([member] + members)
  }

  /** A later member of a name takes the place of an earlier one. */
  function Put(members: seq<Directive>, member: Directive): seq<Directive> {
    if members == [] then [member]
    else if members[0].name == member.name then [member] + members[1..]
    else [members[0]] + Put(members[1..], member)
  }

  function Collapse(members: seq<Directive>): seq<Directive> {
    if members == [] then [] else Put(Collapse(members[..|members| - 1]), members[|members| - 1])
  }

  function Read(header: string): Option<seq<Directive>> {
    match ReadMembers(header)
    case None => None
    case Some(members) => Some(Collapse(members))
  }

  function Written(features: seq<Directive>): string {
    Join(", ", Allowlists(features))
  }

  /* ---------- What can be read back ---------- */

  predicate IsKey(s: string) {
    s != "" && IsKeyStart(s[0]) && forall i :: 0 <= i < |s| ==> IsKeyChar(s[i])
  }

  predicate IsItem(s: string) {
    ItemEnd(s) == Some(|s|)
  }

  predicate IsFeature(d: Directive) {
    IsKey(d.name) && forall i :: 0 <= i < |d.values| ==> IsItem(d.values[i])
  }

  predicate AreFeatures(features: seq<Directive>) {
    AreDistinct(features) && forall i :: 0 <= i < |features| ==> IsFeature(features[i])
  }

  lemma {:induction false} RunIs(p: char -> bool, front: string, rest: string)
    requires forall i :: 0 <= i < |front| ==> p(front[i])
    requires rest == "" || !p(rest[0])
    ensures Run(p, front + rest) == |front|
  {
    if front == "" {
      assert front + rest == rest;
    } else {
      assert (front + rest)[1..] == front[1..] + rest;
      RunIs(p, front[1..], rest);
    }
  }

  /** Where a string ends does not depend on what follows it. */
  lemma {:induction false} StringEndIsLocal(s: string, rest: string)
    requires StringEnd(s).Some?
    ensures StringEnd(s[..StringEnd(s).value] + rest) == StringEnd(s)
  {
    var n := StringEnd(s).value;
    var t := s[..n] + rest;
    if s[0] == '\\' {
      assert t[2..] == s[2..][..n - 2] + rest && t[1] == s[1];
      StringEndIsLocal(s[2..], rest);
    } else if s[0] != '"' {
      assert t[1..] == s[1..][..n - 1] + rest;
      StringEndIsLocal(s[1..], rest);
    }
  }

  lemma TokenEndIsLocal(s: string, rest: string)
    requires s != "" && IsTokenStart(s[0]) && (rest == "" || rest[0] == ' ' || rest[0] == ')')
    ensures ItemEnd(s[..ItemEnd(s).value] + rest) == ItemEnd(s)
  {
    var n := ItemEnd(s).value;
    var body := s[1..][..n - 1];
    assert (s[..n] + rest)[1..] == body + rest && (s[..n] + rest)[0] == s[0];
    RunIs(IsTokenChar, body, rest);
  }

  /** Nor does where an item ends, if it cannot go on. */
  lemma ItemEndIsLocal(s: string, rest: string)
    requires ItemEnd(s).Some? && (rest == "" || rest[0] == ' ' || rest[0] == ')')
    ensures ItemEnd(s[..ItemEnd(s).value] + rest) == ItemEnd(s)
  {
    if s[0] == '"' {
      var n := ItemEnd(s).value;
      assert (s[..n] + rest)[1..] == s[1..][..n - 1] + rest && (s[..n] + rest)[0] == '"';
      StringEndIsLocal(s[1..], rest);
    } else {
      TokenEndIsLocal(s, rest);
    }
  }

  lemma {:induction false} ItemsReadBack(items: seq<string>, rest: string)
    requires forall i :: 0 <= i < |items| ==> IsItem(items[i])
    ensures ReadItems(JoinWords(items) + ")" + rest) == Some((items, rest))
  {
    if items == [] {
      assert JoinWords(items) + ")" + rest == ")" + rest;
    } else {
      var first, others := items[0], items[1..];
      var inner := JoinWords(others) + ")" + rest;
      assert items == [first] + others;
      var behind := if others == [] then inner else " " + inner;
      assert JoinWords(items) + ")" + rest == first + behind;
      ItemsReadBack(others, rest);
      SpaceIsSkipped(inner);
      OneItem(first, behind);
    }
  }

  lemma SpaceIsSkipped(inner: string)
    ensures ReadItems(" " + inner) == ReadItems(inner)
  {
    assert (" " + inner)[1..] == inner;
  }

  lemma OneItem(item: string, behind: string)
    requires IsItem(item) && behind != "" && (behind[0] == ' ' || behind[0] == ')')
    ensures ReadItems(item + behind) ==
            match ReadItems(behind) case None => None case Some((items, rest)) => Some(([item] + items, rest))
  {
    var s := item + behind;
    assert item[..|item|] == item;
    ItemEndIsLocal(item, behind);
    assert s[0] == item[0] && s[..|item|] == item && s[|item|..] == behind;
  }

  lemma AllowlistIs(d: Directive)
    ensures Allowlist(d) == d.name + "=(" + JoinWords(d.values) + ")"
  {
    if d.values == [] {
      assert d.name + "=()" == d.name + "=(" + "" + ")";
    }
  }

  lemma MemberReadsBack(d: Directive, rest: string)
    requires IsFeature(d)
    ensures ReadMember(Allowlist(d) + rest) == Some((d, rest))
  {
    var inner := JoinWords(d.values) + ")" + rest;
    AllowlistIs(d);
    assert Allowlist(d) + rest == d.name + ("=(" + inner);
    ItemsReadBack(d.values, rest);
    KeyAndItems(d.name, inner);
  }

  lemma KeyAndItems(key: string, inner: string)
    requires IsKey(key) && ReadItems(inner).Some?
    ensures ReadMember(key + ("=(" + inner)) ==
            Some((Directive(key, ReadItems(inner).value.0), ReadItems(inner).value.1))
  {
    var behind := "=(" + inner;
    KeyReads(key, behind);
    assert (key + behind)[|key| + 2..] == inner;
  }

  lemma KeyReads(key: string, behind: string)
    requires IsKey(key) && |behind| >= 2 && behind[0] == '='
    ensures var s := key + behind;
            s[0] == key[0] && 1 + Run(IsKeyChar, s[1..]) == |key| && s[..|key|] == key &&
            s[|key|] == '=' && s[|key| + 1] == behind[1]
  {
    assert (key + behind)[1..] == key[1..] + behind;
    RunIs(IsKeyChar, key[1..], behind);
  }

  lemma CommaGoesOn(more: string)
    requires more != "" && !IsOptionalSpace(more[0])
    ensures !IsEnd(", " + more) && NextMember(", " + more) == Some(more)
  {
    var s := ", " + more;
    assert Run(IsOptionalSpace, s) == 0 && s[0..] == s && s[1..] == " " + more;
    RunIs(IsOptionalSpace, " ", more);
    assert (" " + more)[1..] == more;
  }

  lemma OneMember(d: Directive, more: string, members: seq<Directive>)
    requires IsFeature(d) && more != "" && !IsOptionalSpace(more[0]) && ReadMembers(more) == Some(members)
    ensures ReadMembers(Allowlist(d) + (", " + more)) == Some([d] + members)
  {
    MemberReadsBack(d, ", " + more);
    CommaGoesOn(more);
  }

  lemma LastMember(d: Directive)
    requires IsFeature(d)
    ensures ReadMembers(Allowlist(d)) == Some([d])
  {
    MemberReadsBack(d, "");
    assert Allowlist(d) + "" == Allowlist(d);
  }

  /** A written list starts with the key of its first feature. */
  lemma WrittenStarts(features: seq<Directive>)
    requires features != [] && IsFeature(features[0])
    ensures Written(features) != "" && IsKeyStart(Written(features)[0])
    ensures |features| == 1 ==> Written(features) == Allowlist(features[0])
    ensures |features| > 1 ==> Written(features) == Allowlist(features[0]) + (", " + Written(features[1..]))
  {
    AllowlistIs(features[0]);
    if |features| > 1 {
      assert Allowlists(features)[1..] == Allowlists(features[1..]);
    }
  }

  lemma {:induction false} MembersReadBack(features: seq<Directive>)
    requires features != [] && forall i :: 0 <= i < |features| ==> IsFeature(features[i])
    ensures ReadMembers(Written(features)) == Some(features)
  {
    var first, others := features[0], features[1..];
    assert features == [first] + others && IsFeature(first);
    if others == [] {
      assert Written(features) == Allowlist(first) by { WrittenStarts(features); }
      LastMember(first);
      assert features == [first];
    } else {
      var more := Written(others);
      assert Written(features) == Allowlist(first) + (", " + more) by { WrittenStarts(features); }
      assert more != "" && !IsOptionalSpace(more[0]) by {
        assert IsFeature(others[0]);
        WrittenStarts(others);
      }
      MembersReadBack(others);
      OneMember(first, more, others);
    }
  }

  lemma {:induction false} PutNew(members: seq<Directive>, member: Directive)
    requires forall i :: 0 <= i < |members| ==> members[i].name != member.name
    ensures Put(members, member) == members + [member]
  {
    if members != [] {
      PutNew(members[1..], member);
      assert [members[0]] + (members[1..] + [member]) == members + [member];
    }
  }

  lemma {:induction false} DistinctStay(members: seq<Directive>)
    requires AreDistinct(members)
    ensures Collapse(members) == members
  {
    if members != [] {
      var n := |members| - 1;
      DistinctStay(members[..n]);
      PutNew(members[..n], members[n]);
      assert members[..n] + [members[n]] == members;
    }
  }

  /* ---------- What is read is well formed ---------- */

  lemma {:induction false} ReadItemsAreItems(s: string)
    requires ReadItems(s).Some?
    ensures forall i :: 0 <= i < |ReadItems(s).value.0| ==> IsItem(ReadItems(s).value.0[i])
    decreases |s|
  {
    if s[0] == ' ' {
      ReadItemsAreItems(s[1..]);
    } else if s[0] != ')' {
      var n := ItemEnd(s).value;
      ItemEndIsLocal(s, "");
      assert s[..n] + "" == s[..n];
      ReadItemsAreItems(s[n..]);
    }
  }

  lemma ReadKeyIsKey(s: string)
    requires s != "" && IsKeyStart(s[0])
    ensures IsKey(s[..1 + Run(IsKeyChar, s[1..])])
  {
    var n := 1 + Run(IsKeyChar, s[1..]);
    forall i | 0 <= i < n ensures IsKeyChar(s[..n][i]) {
      if i > 0 {
        assert s[1..][i - 1] == s[i];
      }
    }
  }

  lemma ReadMemberIsFeature(s: string)
    requires ReadMember(s).Some?
    ensures IsFeature(ReadMember(s).value.0)
  {
    var n := 1 + Run(IsKeyChar, s[1..]);
    ReadKeyIsKey(s);
    ReadItemsAreItems(s[n + 2..]);
    assert ReadMember(s).value.0 == Directive(s[..n], ReadItems(s[n + 2..]).value.0);
  }

  lemma {:induction false} ReadAreFeatures(s: string)
    requires ReadMembers(s).Some?
    ensures forall i :: 0 <= i < |ReadMembers(s).value| ==> IsFeature(ReadMembers(s).value[i])
    decreases |s|
  {
    ReadMemberIsFeature(s);
    var rest := ReadMember(s).value.1;
    if !IsEnd(rest) {
      ReadAreFeatures(NextMember(rest).value);
    }
  }

  lemma {:induction false} PutKeeps(members: seq<Directive>, member: Directive)
    requires AreFeatures(members) && IsFeature(member)
    ensures AreFeatures(Put(members, member))
    ensures forall i :: 0 <= i < |Put(members, member)| ==>
              Put(members, member)[i].name == member.name || HasName(members, Put(members, member)[i].name)
  {
    if members != [] && members[0].name != member.name {
      PutKeeps(members[1..], member);
      var rest := Put(members[1..], member);
      forall i | 0 <= i < |rest|
        ensures rest[i].name != members[0].name
        ensures rest[i].name == member.name || HasName(members, rest[i].name)
      {
        if rest[i].name != member.name {
          var j :| 0 <= j < |members[1..]| && members[1..][j].name == rest[i].name;
          assert members[j + 1].name == rest[i].name;
        }
      }
    }
  }

  lemma {:induction false} CollapsedAreFeatures(members: seq<Directive>)
    requires forall i :: 0 <= i < |members| ==> IsFeature(members[i])
    ensures AreFeatures(Collapse(members))
  {
    if members != [] {
      CollapsedAreFeatures(members[..|members| - 1]);
      PutKeeps(Collapse(members[..|members| - 1]), members[|members| - 1]);
    }
  }

  /**
   The header reads back as the configured features if and only if those are well formed: distinct
   keys, and allowlists of tokens and strings.
   */
  lemma PolicyRoundTrip(features: seq<Directive>)
    requires features != []
    ensures Read(Written(features)) == Some(features) <==> AreFeatures(features)
  {
    if AreFeatures(features) {
      MembersReadBack(features);
      DistinctStay(features);
    }
    if ReadMembers(Written(features)).Some? {
      ReadAreFeatures(Written(features));
      CollapsedAreFeatures(ReadMembers(Written(features)).value);
    }
  }
}
