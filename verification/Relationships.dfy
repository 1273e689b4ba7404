/**
 Relationships between annotations (`config/graphql/annotation_mutations.py`): adding, updating
 and removing them, as steps over a store. Visibility and permission services answer through
 `Access`.
 */
module Relationships {
  import opened Wrappers
  import opened Sequences
  import opened Decimals
  import opened Integers

  /** What decoding a global id gives: an error, or a text and the number it reads as, if any. */
  datatype RawId = Malformed | Raw(text: string, number: Option<int>)

  datatype Relationship = Relationship(creator: nat, labelPk: int, corpusPk: int, documentPk: int, sources: set<int>,
                                       targets: set<int>)

  datatype State = State(relationships: map<int, Relationship>, nextPk: nat)

  /** What the services answer in one step to its user. Primary keys are no negative numbers. */
  datatype Access = Access(
    annotations: set<nat>,
    mayCreateIn: int -> bool,
    seesDocument: int -> bool,
    seesLabel: int -> bool,
    seesRelationship: int -> bool,
    mayUpdate: int -> bool,
    mayDelete: int -> bool)

  datatype Op =
    | Add(user: nat, sources: seq<RawId>, targets: seq<RawId>, labelId: RawId, corpusId: RawId, documentId: RawId)
    | Update(id: RawId, addSources: seq<RawId>, addTargets: seq<RawId>, removeSources: seq<RawId>,
      removeTargets: seq<RawId>)
    | Remove(id: RawId)
    | RemoveMany(ids: seq<RawId>)

  datatype Response = Success | NotFound | Failed | Raised

  /* ---------- Identifiers ---------- */

  /** The number is what `int` makes of the text. */
  predicate IsRead(id: RawId) {
    id.Raw? ==> id.number == ParseInt(id.text)
  }

  predicate AllRead(ids: seq<RawId>) {
    forall id :: id in ids ==> IsRead(id)
  }

  function ParseId(id: RawId): Option<int> {
    match id
    case Malformed => None
    case Raw(_, number) => number
  }

  predicate AllParse(ids: seq<RawId>) {
    forall id :: id in ids ==> ParseId(id).Some?
  }

  /** The primary keys that are asked for. */
  function Pks(ids: seq<RawId>): set<int> {
    set id | id in ids && ParseId(id).Some? :: ParseId(id).value
  }

  /** The texts that are asked for. */
  function TextsOf(ids: seq<RawId>): set<string> {
    set id | id in ids && id.Raw? :: id.text
  }

  /** The rows that a query for `id__in=pks` finds among the visible ones. */
  function Found(visible: set<nat>, pks: set<int>): set<int> {
    set a | a in visible && a in pks :: a as int
  }

  /** An id written as the primary key prints. */
  predicate IsCanonical(id: RawId) {
    ParseId(id).Some? && ParseId(id).value >= 0 && id.text == Show(ParseId(id).value)
  }

  predicate AllCanonical(ids: seq<RawId>) {
    forall id :: id in ids ==> IsCanonical(id)
  }

  /** Comparing counts tells whether everything asked for is visible. */
  lemma CountTestIsExact(visible: set<nat>, pks: set<int>)
    ensures |Found(visible, pks)| == |pks| <==> (forall pk :: pk in pks ==> pk >= 0 && pk in visible)
    ensures |Found(visible, pks)| == |pks| ==> Found(visible, pks) == pks
  {
    var found := Found(visible, pks);
    assert found <= pks;
    if |found| == |pks| {
      assert |pks - found| == 0 && pks == found + (pks - found);
      assert pks - found == {};
    }
    if forall pk :: pk in pks ==> pk >= 0 && pk in visible {
      assert found == pks;
    }
  }

  /**
   Comparing the printed keys of the rows found with the texts asked for tells whether everything
   asked for is visible and written canonically.
   */
  lemma TextTestIsExact(visible: set<nat>, ids: seq<RawId>)
    requires AllParse(ids) && AllRead(ids)
    ensures (set a | a in Found(visible, Pks(ids)) && a >= 0 :: Show(a)) == TextsOf(ids) <==>
            AllCanonical(ids) && (forall pk :: pk in Pks(ids) ==> pk >= 0 && pk in visible)
  {
    var shown := set a | a in Found(visible, Pks(ids)) && a >= 0 :: Show(a);
    if shown == TextsOf(ids) {
      forall id | id in ids ensures IsCanonical(id) && ParseId(id).value in visible {
        assert id.text in TextsOf(ids) && IsRead(id);
        var a :| a in Found(visible, Pks(ids)) && a >= 0 && Show(a) == id.text;
        ShownParses(a);
      }
    }
    if AllCanonical(ids) && forall pk :: pk in Pks(ids) ==> pk >= 0 && pk in visible {
      forall text | text in TextsOf(ids) ensures text in shown {
        var id :| id in ids && id.Raw? && id.text == text;
        assert ParseId(id).value in Pks(ids);
      }
      forall text | text in shown ensures text in TextsOf(ids) {
        var a :| a in Found(visible, Pks(ids)) && a >= 0 && Show(a) == text;
        var id :| id in ids && ParseId(id) == Some(a);
        assert IsCanonical(id);
      }
    }
  }

  /* ---------- What the steps do ---------- */

  predicate AllVisible(ids: seq<RawId>, visible: set<nat>) {
    forall pk :: pk in Pks(ids) ==> pk >= 0 && pk in visible
  }

  /** A new relationship is allowed. */
  predicate MayAdd(op: Op, a: Access)
    requires op.Add?
  {
    && AllParse(op.sources) && AllParse(op.targets)
    && ParseId(op.labelId).Some? && ParseId(op.corpusId).Some? && ParseId(op.documentId).Some?
    && AllVisible(op.sources, a.annotations) && AllVisible(op.targets, a.annotations)
    && a.mayCreateIn(ParseId(op.corpusId).value)
    && a.seesDocument(ParseId(op.documentId).value) && a.seesLabel(ParseId(op.labelId).value)
  }

  /** The relationship of an id, if there is one to be seen. */
  predicate Finds(s: State, a: Access, id: RawId) {
    ParseId(id).Some? && ParseId(id).value in s.relationships && a.seesRelationship(ParseId(id).value)
  }

  /** One list of additions: `None` if there is nothing wrong. */
  function AddFailure(ids: seq<RawId>, visible: set<nat>): Option<Response> {
    if !AllParse(ids) then Some(Failed)
    else if !AllCanonical(ids) || !AllVisible(ids, visible) then Some(NotFound)
    else None
  }

  /** The updated relationship; what was done before a failure stays done. */
  function Updated(r: Relationship, op: Op, visible: set<nat>): (Relationship, Response)
    requires op.Update?
  {
    if AddFailure(op.addSources, visible).Some? then (r, AddFailure(op.addSources, visible).value)
    else
      var r1 := r.(sources := r.sources + Pks(op.addSources));
      if AddFailure(op.addTargets, visible).Some? then (r1, AddFailure(op.addTargets, visible).value)
      else
        var r2 := r1.(targets := r1.targets + Pks(op.addTargets));
        if !AllParse(op.removeSources) then (r2, Failed)
        else
          var r3 := r2.(sources := r2.sources - Pks(op.removeSources));
          if !AllParse(op.removeTargets) then (r3, Failed)
          else (r3.(targets := r3.targets - Pks(op.removeTargets)), Success)
  }

  /** Id number `i` can be deleted: it was there, is not an earlier one again, and the user may. */
  predicate IsDeletable(s: State, a: Access, ids: seq<RawId>, i: nat)
    requires i < |ids|
  {
    && Finds(s, a, ids[i]) && a.mayDelete(ParseId(ids[i]).value)
    && ParseId(ids[i]).value !in Pks(ids[..i])
  }

  /** How many ids, from the front, can be deleted. */
  function DeletablePrefix(s: State, a: Access, ids: seq<RawId>, from: nat): (n: nat)
    requires from <= |ids|
    ensures from <= n <= |ids|
    ensures forall i :: from <= i < n ==> IsDeletable(s, a, ids, i)
    ensures n < |ids| ==> !IsDeletable(s, a, ids, n)
    decreases |ids| - from
  {
    if from < |ids| && IsDeletable(s, a, ids, from) then DeletablePrefix(s, a, ids, from + 1) else from
  }

  function Step(s: State, op: Op, a: Access): (State, Response) {
    match op
    case Add(user, sources, targets, labelId, corpusId, documentId) =>
      if !MayAdd(op, a) then (s, NotFound)
      else
        var r := Relationship(user, ParseId(labelId).value, ParseId(corpusId).value, ParseId(documentId).value,
          Pks(sources), Pks(targets));
        (State(s.relationships[s.nextPk := r], s.nextPk + 1), Success)
    case Update(id, _, _, _, _) =>
      if id == Malformed then (s, Failed)
      else if !Finds(s, a, id) || !a.mayUpdate(ParseId(id).value) then (s, NotFound)
      else
        var pk := ParseId(id).value;
        var (r, response) := Updated(s.relationships[pk], op, a.annotations);
        (s.(relationships := s.relationships[pk := r]), response)
    case Remove(id) =>
      if id == Malformed then (s, Failed)
      else if !Finds(s, a, id) || !a.mayDelete(ParseId(id).value) then (s, NotFound)
      else (s.(relationships := s.relationships - {ParseId(id).value}), Success)
    case RemoveMany(ids) =>
      var n := DeletablePrefix(s, a, ids, 0);
      (s.(relationships := s.relationships - Pks(ids[..n])),
       if n == |ids| then Success else if ids[n] == Malformed then Raised else NotFound)
  }

  /* ---------- The mutations ---------- */

  /** The annotations of ids that parse, if all are visible, by counting. */
  method CountVisible(ids: seq<RawId>, visible: set<nat>) returns (r: Option<set<int>>)
    ensures r == if AllVisible(ids, visible) then Some(Pks(ids)) else None
  {
    var pks := Pks(ids);
    var found := Found(visible, pks);
    CountTestIsExact(visible, pks);
    if |found| != |pks| {
      return None;
    }
    return Some(found);
  }

  /** The annotations to be added on one side, if all are visible, by comparing texts. */
  method LoadVisible(ids: seq<RawId>, visible: set<nat>) returns (r: Result<set<int>, Response>)
    requires AllRead(ids)
    ensures r == if AddFailure(ids, visible).Some? then Err(AddFailure(ids, visible).value) else Ok(Pks(ids))
  {
    if !AllParse(ids) {
      return Err(Failed);
    }
    var found := Found(visible, Pks(ids));
    TextTestIsExact(visible, ids);
    if (set a | a in found && a >= 0 :: Show(a)) != TextsOf(ids) {
      return Err(NotFound);
    }
    assert found == Pks(ids);
    return Ok(found);
  }

  /** The sets of one relationship, changed one after the other. */
  method UpdateRow(relationship: Relationship, addSourceIds: seq<RawId>, addTargetIds: seq<RawId>,
                   removeSourceIds: seq<RawId>,
                   removeTargetIds: seq<RawId>, visible: set<nat>)
    returns (r: Relationship, response: Response)
    requires AllRead(addSourceIds) && AllRead(addTargetIds)
    ensures (r, response) ==
            Updated(relationship, Update(Malformed, addSourceIds, addTargetIds, removeSourceIds, removeTargetIds),
              visible)
  {
    r := relationship;
    if addSourceIds != [] {
      var found := LoadVisible(addSourceIds, visible);
      if found.Err? {
        return r, found.error;
      }
      r := r.(sources := r.sources + found.value);
    }
    assert r.sources == relationship.sources + Pks(addSourceIds);
    if addTargetIds != [] {
      var found := LoadVisible(addTargetIds, visible);
      if found.Err? {
        return r, found.error;
      }
      r := r.(targets := r.targets + found.value);
    }
    assert r.targets == relationship.targets + Pks(addTargetIds);
    if removeSourceIds != [] {
      if !AllParse(removeSourceIds) {
        return r, Failed;
      }
      var attached := set a | a in r.sources && a in Pks(removeSourceIds);
      r := r.(sources := r.sources - attached);
    }
    assert r.sources == relationship.sources + Pks(addSourceIds) - Pks(removeSourceIds);
    if removeTargetIds != [] {
      if !AllParse(removeTargetIds) {
        return r, Failed;
      }
      var attached := set a | a in r.targets && a in Pks(removeTargetIds);
      r := r.(targets := r.targets - attached);
    }
    assert r.targets == relationship.targets + Pks(addTargetIds) - Pks(removeTargetIds);
    return r, Success;
  }

  class Store {
    var relationships: map<int, Relationship>
    var nextPk: nat

    constructor ()
      ensures Current() == State(map[], 0)
    {
      relationships, nextPk := map[], 0;
    }

    function Current(): State
      reads this
    {
      State(relationships, nextPk)
    }

    /** `_mutate_AddRelationship` */
    method AddRelationship(user: nat, sourceIds: seq<RawId>, targetIds: seq<RawId>, labelId: RawId, corpusId: RawId,
                           documentId: RawId, access: Access)
      returns (response: Response)
      modifies this
      ensures (Current(), response) ==
              Step(old(Current()), Add(user, sourceIds, targetIds, labelId, corpusId, documentId), access)
    {
      if !AllParse(sourceIds) || !AllParse(targetIds) || ParseId(labelId).None? || ParseId(corpusId).None? ||
        ParseId(documentId).None? {
        return NotFound;
      }
      var sources := CountVisible(sourceIds, access.annotations);
      var targets := CountVisible(targetIds, access.annotations);
      if sources.None? || targets.None? {
        return NotFound;
      }
      if !access.mayCreateIn(ParseId(corpusId).value) {
        return NotFound;
      }
      if !access.seesDocument(ParseId(documentId).value) {
        return NotFound;
      }
      if !access.seesLabel(ParseId(labelId).value) {
        return NotFound;
      }
      var relationship := Relationship(user, ParseId(labelId).value, ParseId(corpusId).value,
        ParseId(documentId).value, {}, {});
      relationship := relationship.(targets := targets.value);
      relationship := relationship.(sources := sources.value);
      relationships := relationships[nextPk := relationship];
      nextPk := nextPk + 1;
      return Success;
    }

    /** `_mutate_UpdateRelationship` */
    method UpdateRelationship(id: RawId, addSourceIds: seq<RawId>, addTargetIds: seq<RawId>,
                              removeSourceIds: seq<RawId>, removeTargetIds: seq<RawId>, access: Access)
      returns (response: Response)
      requires AllRead(addSourceIds) && AllRead(addTargetIds)
      modifies this`relationships
      ensures (Current(), response) ==
              Step(old(Current()), Update(id, addSourceIds, addTargetIds, removeSourceIds, removeTargetIds), access)
    {
      if id == Malformed {
        return Failed;
      }
      if !Finds(Current(), access, id) || !access.mayUpdate(ParseId(id).value) {
        return NotFound;
      }
      var pk := ParseId(id).value;
      var r;
      r, response := UpdateRow(relationships[pk], addSourceIds, addTargetIds, removeSourceIds, removeTargetIds,
        access.annotations);
      relationships := relationships[pk := r];
    }

    /** `_mutate_RemoveRelationship` */
    method RemoveRelationship(id: RawId, access: Access) returns (response: Response)
      modifies this`relationships
      ensures (Current(), response) == Step(old(Current()), Remove(id), access)
    {
      if id == Malformed {
        return Failed;
      }
      if !Finds(Current(), access, id) {
        return NotFound;
      }
      if !access.mayDelete(ParseId(id).value) {
        return NotFound;
      }
      relationships := relationships - {ParseId(id).value};
      return Success;
    }

    /** `_mutate_RemoveRelationships`: one after the other, up to the first that cannot be deleted. */
    method RemoveRelationships(ids: seq<RawId>, access: Access) returns (response: Response)
      modifies this`relationships
      ensures (Current(), response) == Step(old(Current()), RemoveMany(ids), access)
    {
      ghost var before := Current();
      for i := 0 to |ids|
        invariant nextPk == before.nextPk
        invariant relationships == before.relationships - Pks(ids[..i])
        invariant DeletablePrefix(before, access, ids, 0) == DeletablePrefix(before, access, ids, i)
      {
        var id := ids[i];
        if id == Malformed {
          return Raised;
        }
        if !Finds(Current(), access, id) || !access.mayDelete(ParseId(id).value) {
          return NotFound;
        }
        OneMorePk(ids, i);
        relationships := relationships - {ParseId(id).value};
      }
      TakeAll(ids);
      return Success;
    }
  }

  lemma OneMorePk(ids: seq<RawId>, i: nat)
    requires i < |ids| && ParseId(ids[i]).Some?
    ensures Pks(ids[..i + 1]) == Pks(ids[..i]) + {ParseId(ids[i]).value}
  {
    TakeOne(ids, i);
    PksOfAppended(ids[..i], ids[i]);
  }

  lemma PksOfAppended(ids: seq<RawId>, id: RawId)
    requires ParseId(id).Some?
    ensures Pks(ids + [id]) == Pks(ids) + {ParseId(id).value}
  {
    assert forall x :: x in ids + [id] <==> x in ids || x == id;
  }

  /* ---------- What an update means ---------- */

  /** The relationship of an id, if the user may update it. */
  predicate MayUpdate(s: State, a: Access, id: RawId) {
    id != Malformed && Finds(s, a, id) && a.mayUpdate(ParseId(id).value)
  }

  /**
   An update goes through exactly when every id is as it should be. Then each side is what it was,
   with the additions, without the removals, and nothing else changes.
   */
  lemma UpdateIsExact(s: State, op: Op, a: Access)
    requires op.Update?
    ensures Step(s, op, a).1 == Success <==>
            && MayUpdate(s, a, op.id)
            && AllCanonical(op.addSources) && AllVisible(op.addSources, a.annotations)
            && AllCanonical(op.addTargets) && AllVisible(op.addTargets, a.annotations)
            && AllParse(op.removeSources) && AllParse(op.removeTargets)
    ensures Step(s, op, a).1 == Success ==>
              var pk := ParseId(op.id).value;
              var r, r' := s.relationships[pk], Step(s, op, a).0.relationships[pk];
              && r'.sources == r.sources + Pks(op.addSources) - Pks(op.removeSources)
              && r'.targets == r.targets + Pks(op.addTargets) - Pks(op.removeTargets)
              && r'.(sources := r.sources, targets := r.targets) == r
              && Step(s, op, a).0 == s.(relationships := s.relationships[pk := r'])
  {
    CanonicalParses(op.addSources);
    CanonicalParses(op.addTargets);
  }

  lemma CanonicalParses(ids: seq<RawId>)
    ensures AllCanonical(ids) ==> AllParse(ids)
  {
  }

  /** Adding and then removing leaves a side alone: what is added is there or removed, and nothing there is removed. */
  predicate NothingMoves(side: set<int>, added: set<int>, removed: set<int>) {
    added - removed <= side && side !! removed
  }

  lemma MovesNothing(side: set<int>, added: set<int>, removed: set<int>)
    ensures side + added - removed == side <==> NothingMoves(side, added, removed)
    ensures side + added == side <==> added <= side
  {
    var moved := side + added - removed;
    if moved == side {
      assert forall x :: x in added - removed ==> x in moved;
      assert forall x :: x in side ==> x in moved;
    }
  }

  /**
   An update leaves the store as it was if and only if it is refused at once or with its first
   additions, or what it does up to its end or its failure, list by list, moves nothing. A failing
   update is not undone.
   */
  lemma UpdateKeepsExactly(s: State, op: Op, a: Access)
    requires op.Update?
    ensures Step(s, op, a).0 == s <==>
            || !MayUpdate(s, a, op.id)
            || AddFailure(op.addSources, a.annotations).Some?
            || var r := s.relationships[ParseId(op.id).value];
               var addS, addT, removeS, removeT := Pks(op.addSources), Pks(op.addTargets), Pks(op.removeSources),
                 Pks(op.removeTargets);
               if AddFailure(op.addTargets, a.annotations).Some? then addS <= r.sources
               else if !AllParse(op.removeSources) then addS <= r.sources && addT <= r.targets
               else if !AllParse(op.removeTargets) then NothingMoves(r.sources, addS, removeS) && addT <= r.targets
               else NothingMoves(r.sources, addS, removeS) && NothingMoves(r.targets, addT, removeT)
  {
    if MayUpdate(s, a, op.id) {
      var pk := ParseId(op.id).value;
      var r := s.relationships[pk];
      var r' := Updated(r, op, a.annotations).0;
      RowKeeps(s.relationships, pk, r');
      assert r' == r <==> r'.sources == r.sources && r'.targets == r.targets;
      MovesNothing(r.sources, Pks(op.addSources), Pks(op.removeSources));
      MovesNothing(r.targets, Pks(op.addTargets), Pks(op.removeTargets));
    }
  }

  lemma RowKeeps(rows: map<int, Relationship>, pk: int, r: Relationship)
    requires pk in rows
    ensures rows[pk := r] == rows <==> r == rows[pk]
  {
    assert rows[pk := r][pk] == r;
  }

  lemma PksOfOne(id: RawId)
    requires ParseId(id).Some?
    ensures Pks([id]) == {ParseId(id).value} && AllParse([id])
    ensures AllCanonical([id]) <==> IsCanonical(id)
  {
    assert id in [id];
  }

  /**
   So a refused update can have changed the store: whenever an annotation that is not yet a source
   comes with a target that is not visible.
   */
  lemma RefusedUpdateCanWrite(s: State, a: Access, id: RawId, seen: RawId, unseen: RawId)
    requires MayUpdate(s, a, id) && IsCanonical(seen) && ParseId(unseen).Some?
    requires ParseId(seen).value in a.annotations && ParseId(seen).value !in s.relationships[ParseId(id).value].sources
    requires forall v :: v in a.annotations ==> ParseId(unseen) != Some(v)
    ensures var (s', response) := Step(s, Update(id, [seen], [unseen], [], []), a);
            && response == NotFound && s' != s
            && IsAttached(s', ParseId(id).value, Sources, ParseId(seen).value)
  {
    PksOfOne(seen);
    PksOfOne(unseen);
    var op := Update(id, [seen], [unseen], [], []);
    assert AddFailure(op.addSources, a.annotations).None?;
    assert AddFailure(op.addTargets, a.annotations) == Some(NotFound);
    UpdateKeepsExactly(s, op, a);
  }

  /**
   A key with a leading zero: the mutation that adds a relationship to a visible annotation accepts
   it, the one that updates a relationship refuses it.
   */
  lemma PaddedIdTellsMutationsApart(s: State, a: Access, user: nat, place: RawId, id: RawId)
    requires 7 in a.annotations
    requires ParseId(place).Some? && a.mayCreateIn(ParseId(place).value) && a.seesDocument(ParseId(place).value) &&
             a.seesLabel(ParseId(place).value)
    requires MayUpdate(s, a, id)
    ensures var padded := [Raw("07", Some(7))];
            && AllRead(padded)
            && Step(s, Add(user, padded, padded, place, place, place), a).1 == Success
            && Step(s, Update(id, padded, [], [], []), a) == (s, NotFound)
  {
    var seven := Raw("07", Some(7));
    PaddedReads();
    assert seven in [seven] && Pks([seven]) == {7};
    assert Show(7) == "7";
    assert !IsCanonical(seven);
    var r := s.relationships[ParseId(id).value];
    RowKeeps(s.relationships, ParseId(id).value, r);
  }

  lemma PaddedReads()
    ensures ParseInt("07") == Some(7)
  {
    DigitsAreNumeral("07");
    PlainDigits("07");
    assert "07"[..1] == "0" && "0"[..0] == "";
    assert Value("0") == 0 && Value("07") == 7;
  }

  /** Removing many deletes exactly the longest deletable prefix, and succeeds only if that is everything. */
  lemma RemovesLongestPrefix(s: State, ids: seq<RawId>, a: Access, n: nat)
    requires n <= |ids|
    requires forall i :: 0 <= i < n ==> IsDeletable(s, a, ids, i)
    requires n < |ids| ==> !IsDeletable(s, a, ids, n)
    ensures var (s', response) := Step(s, RemoveMany(ids), a);
            && (response == Success <==> n == |ids|)
            && (forall pk :: pk in s'.relationships <==> pk in s.relationships && pk !in Pks(ids[..n]))
            && (forall pk :: pk in s'.relationships ==> s'.relationships[pk] == s.relationships[pk])
            && |s'.relationships| == |s.relationships| - n
  {
    PrefixIs(s, ids, a, 0, n);
    PrefixHasDistinctRows(s, ids, a, n);
    RemovedCount(s.relationships, Pks(ids[..n]));
  }

  lemma {:induction false} PrefixIs(s: State, ids: seq<RawId>, a: Access, from: nat, n: nat)
    requires from <= n <= |ids|
    requires forall i :: from <= i < n ==> IsDeletable(s, a, ids, i)
    requires n < |ids| ==> !IsDeletable(s, a, ids, n)
    ensures DeletablePrefix(s, a, ids, from) == n
    decreases n - from
  {
    if from < n {
      PrefixIs(s, ids, a, from + 1, n);
    }
  }

  lemma {:induction false} PrefixHasDistinctRows(s: State, ids: seq<RawId>, a: Access, n: nat)
    requires n <= |ids| && forall i :: 0 <= i < n ==> IsDeletable(s, a, ids, i)
    ensures |Pks(ids[..n])| == n && Pks(ids[..n]) <= s.relationships.Keys
  {
    if n == 0 {
      assert Pks(ids[..0]) == {};
    } else {
      PrefixHasDistinctRows(s, ids, a, n - 1);
      assert IsDeletable(s, a, ids, n - 1);
      OneMorePk(ids, n - 1);
      CountOneMore(Pks(ids[..n - 1]), ParseId(ids[n - 1]).value);
    }
  }

  lemma CountOneMore(pks: set<int>, pk: int)
    requires pk !in pks
    ensures |pks + {pk}| == |pks| + 1
  {
  }

  lemma RemovedCount(rows: map<int, Relationship>, pks: set<int>)
    requires pks <= rows.Keys
    ensures |rows - pks| == |rows| - |pks|
  {
    assert (rows - pks).Keys == rows.Keys - pks;
    assert |rows| == |rows.Keys| && |rows - pks| == |(rows - pks).Keys|;
  }

  /* ---------- Runs ---------- */

  datatype Event = Event(op: Op, access: Access)

  function After(s: State, events: seq<Event>, n: nat): State
    requires n <= |events|
  {
    if n == 0 then s else Step(After(s, events, n - 1), events[n - 1].op, events[n - 1].access).0
  }

  /** Keys are handed out in order. */
  ghost predicate Valid(s: State) {
    forall pk :: pk in s.relationships ==> 0 <= pk < s.nextPk
  }

  /** What a relationship is about, which no mutation changes. */
  predicate SameIdentity(r: Relationship, r': Relationship) {
    r'.creator == r.creator && r'.labelPk == r.labelPk && r'.corpusPk == r.corpusPk && r'.documentPk == r.documentPk
  }

  /** A step adds nothing below the counter, and what it keeps it keeps under the same key. */
  lemma StepOnKeys(s: State, op: Op, a: Access)
    requires Valid(s)
    ensures var s' := Step(s, op, a).0;
            && Valid(s') && s.nextPk <= s'.nextPk
            && (forall pk :: pk < s.nextPk && pk in s'.relationships ==>
                  pk in s.relationships && SameIdentity(s.relationships[pk], s'.relationships[pk]))
  {
  }

  /**
   Over every run, a key that is once removed, or that was never handed out below the counter, does
   not come back, and as long as it exists it stays with one creator, label, corpus and document.
   */
  lemma {:induction false} KeysAreNotReused(s: State, events: seq<Event>, m: nat, n: nat, pk: int)
    requires Valid(s) && m <= n <= |events| && pk < After(s, events, m).nextPk
    ensures var before, after := After(s, events, m), After(s, events, n);
            && Valid(before) && Valid(after) && before.nextPk <= after.nextPk
            && (pk in after.relationships ==>
                  pk in before.relationships && SameIdentity(before.relationships[pk], after.relationships[pk]))
    decreases n
  {
    RunIsValid(s, events, m);
    if m < n {
      KeysAreNotReused(s, events, m, n - 1, pk);
      StepOnKeys(After(s, events, n - 1), events[n - 1].op, events[n - 1].access);
    }
  }

  lemma {:induction false} RunIsValid(s: State, events: seq<Event>, n: nat)
    requires Valid(s) && n <= |events|
    ensures Valid(After(s, events, n))
  {
    if n > 0 {
      RunIsValid(s, events, n - 1);
      StepOnKeys(After(s, events, n - 1), events[n - 1].op, events[n - 1].access);
    }
  }

  datatype Side = Sources | Targets

  function On(r: Relationship, side: Side): set<int> {
    match side
    case Sources => r.sources
    case Targets => r.targets
  }

  predicate IsAttached(s: State, pk: int, side: Side, annotation: int) {
    pk in s.relationships && annotation in On(s.relationships[pk], side)
  }
}
