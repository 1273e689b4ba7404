/**
 What each mutation of a relationship takes and what it does, said of the ids as they are given:
 when it succeeds, which answer it gives otherwise, and which annotation stands on which side after.
 */
module RelationshipEffects {
  import opened Wrappers
  import opened Decimals
  import opened Relationships

  predicate ReadsAs(id: RawId, n: int) {
    id.Raw? && id.number == Some(n)
  }

  predicate IsReadable(id: RawId) {
    id.Raw? && id.number.Some?
  }

  /** Some id of the list reads as the number. */
  predicate Names(ids: seq<RawId>, n: int) {
    exists id :: id in ids && ReadsAs(id, n)
  }

  predicate AllReadable(ids: seq<RawId>) {
    forall id :: id in ids ==> IsReadable(id)
  }

  /** Every id is the key of an annotation that is visible. */
  predicate AllSeen(ids: seq<RawId>, visible: set<nat>) {
    forall id :: id in ids ==> IsReadable(id) && id.number.value >= 0 && id.number.value in visible
  }

  /** Every id is such a key, and written as the key prints. */
  predicate AllSeenAsPrinted(ids: seq<RawId>, visible: set<nat>) {
    AllSeen(ids, visible) && forall id :: id in ids ==> IsReadable(id) && id.text == Show(Natural(id.number.value))
  }

  function Natural(n: int): nat {
    if n < 0 then 0 else n
  }

  /* ---------- The sets the mutations compute ---------- */

  lemma PksAreNamed(ids: seq<RawId>, n: int)
    ensures n in Pks(ids) <==> Names(ids, n)
  {
    if n in Pks(ids) {
      var id :| id in ids && ParseId(id).Some? && ParseId(id).value == n;
      assert ReadsAs(id, n);
    }
    if id :| id in ids && ReadsAs(id, n) {
      assert ParseId(id) == Some(n);
    }
  }

  lemma AllPksAreNamed(ids: seq<RawId>)
    ensures forall n :: n in Pks(ids) <==> Names(ids, n)
  {
    forall n ensures n in Pks(ids) <==> Names(ids, n) { PksAreNamed(ids, n); }
  }

  lemma SeenMeans(ids: seq<RawId>, visible: set<nat>)
    ensures AllParse(ids) <==> AllReadable(ids)
    ensures AllParse(ids) && AllVisible(ids, visible) <==> AllSeen(ids, visible)
    ensures AllCanonical(ids) && AllVisible(ids, visible) <==> AllSeenAsPrinted(ids, visible)
  {
    assert AllParse(ids) <==> AllReadable(ids) by {
      if AllReadable(ids) {
        forall id | id in ids ensures ParseId(id).Some? { assert IsReadable(id); }
      }
      if AllParse(ids) {
        forall id | id in ids ensures IsReadable(id) { assert ParseId(id).Some?; }
      }
    }
    if AllSeen(ids, visible) {
      forall id | id in ids ensures ParseId(id).Some? { assert IsReadable(id); }
      forall pk | pk in Pks(ids) ensures pk >= 0 && pk in visible {
        PksAreNamed(ids, pk);
      }
    }
    if AllParse(ids) && AllVisible(ids, visible) {
      forall id | id in ids ensures IsReadable(id) && id.number.value >= 0 && id.number.value in visible {
        assert ParseId(id).value in Pks(ids);
      }
    }
    CanonicalParses(ids);
    if AllCanonical(ids) && AllVisible(ids, visible) {
      forall id | id in ids ensures IsReadable(id) && id.text == Show(Natural(id.number.value)) {
        assert IsCanonical(id);
      }
    }
    if AllSeenAsPrinted(ids, visible) {
      forall id | id in ids ensures IsCanonical(id) { assert IsReadable(id); }
    }
  }

  /* ---------- Adding ---------- */

  /**
   A relationship is made if and only if all ids can be read, all annotations are visible, and
   corpus, document and label are allowed. The new row has a fresh key and holds what the ids say;
   every other row stays. A refusal leaves the store as it was.
   */
  lemma AddIsExact(s: State, user: nat, sources: seq<RawId>, targets: seq<RawId>, labelId: RawId, corpusId: RawId,
                   documentId: RawId, a: Access)
    ensures var (s', response) := Step(s, Add(user, sources, targets, labelId, corpusId, documentId), a);
            && (response == Success <==>
                  && AllSeen(sources, a.annotations) && AllSeen(targets, a.annotations)
                  && IsReadable(labelId) && IsReadable(corpusId) && IsReadable(documentId)
                  && a.mayCreateIn(corpusId.number.value)
                  && a.seesDocument(documentId.number.value)
                  && a.seesLabel(labelId.number.value))
            && (response != Success ==> response == NotFound && s' == s)
            && (response == Success ==>
                  && (Valid(s) ==> s.nextPk !in s.relationships)
                  && (forall pk :: pk in s'.relationships <==> pk in s.relationships || pk == s.nextPk)
                  && (forall pk :: pk in s.relationships && pk != s.nextPk ==>
                        s'.relationships[pk] == s.relationships[pk])
                  && s'.nextPk == s.nextPk + 1
                  && var r := s'.relationships[s.nextPk];
                     && r.creator == user
                     && ReadsAs(labelId, r.labelPk) && ReadsAs(corpusId, r.corpusPk)
                     && ReadsAs(documentId, r.documentPk)
                     && (forall n :: n in r.sources <==> Names(sources, n))
                     && (forall n :: n in r.targets <==> Names(targets, n)))
  {
    SeenMeans(sources, a.annotations);
    SeenMeans(targets, a.annotations);
    AllPksAreNamed(sources);
    AllPksAreNamed(targets);
  }

  /* ---------- Updating ---------- */

  /** The row the id stands for, when it is there and visible. */
  predicate IsSeen(s: State, a: Access, id: RawId) {
    IsReadable(id) && id.number.value in s.relationships && a.seesRelationship(id.number.value)
  }

  /**
   The four lists are taken one after the other up to the first that is not as it should be, and
   what was done before that stays done: which annotations stand on each side after, and what is
   answered, in every case.
   */
  lemma UpdateExactly(s: State, id: RawId, addSources: seq<RawId>, addTargets: seq<RawId>,
                      removeSources: seq<RawId>, removeTargets: seq<RawId>, a: Access)
    ensures var (s', response) := Step(s, Update(id, addSources, addTargets, removeSources, removeTargets), a);
            if !IsSeen(s, a, id) || !a.mayUpdate(id.number.value) then
              s' == s && response == if id.Malformed? then Failed else NotFound
            else
              var pk := id.number.value;
              var first := AllSeenAsPrinted(addSources, a.annotations);
              var second := first && AllSeenAsPrinted(addTargets, a.annotations);
              var third := second && AllReadable(removeSources);
              var all := third && AllReadable(removeTargets);
              && pk in s'.relationships
              && s' == s.(relationships := s.relationships[pk := s'.relationships[pk]])
              && var r, r' := s.relationships[pk], s'.relationships[pk];
                 && SameIdentity(r, r')
                 && (forall n :: n in r'.sources <==>
                       (n in r.sources || (first && Names(addSources, n))) && !(third && Names(removeSources, n)))
                 && (forall n :: n in r'.targets <==>
                       (n in r.targets || (second && Names(addTargets, n))) && !(all && Names(removeTargets, n)))
                 && response ==
                    if all then Success
                    else if second || (if first then !AllReadable(addTargets) else !AllReadable(addSources)) then Failed
                    else NotFound
  {
    SeenMeans(addSources, a.annotations);
    SeenMeans(addTargets, a.annotations);
    SeenMeans(removeSources, a.annotations);
    SeenMeans(removeTargets, a.annotations);
    if IsSeen(s, a, id) && a.mayUpdate(id.number.value) {
      AllPksAreNamed(addSources);
      AllPksAreNamed(addTargets);
      AllPksAreNamed(removeSources);
      AllPksAreNamed(removeTargets);
    }
  }

  /* ---------- Removing ---------- */

  /** Removing one takes a row that is there, visible and deletable, and exactly that row goes. */
  lemma RemoveIsExact(s: State, id: RawId, a: Access)
    ensures var (s', response) := Step(s, Remove(id), a);
            && (response == Success <==> IsSeen(s, a, id) && a.mayDelete(id.number.value))
            && (response != Success ==> s' == s && response == if id.Malformed? then Failed else NotFound)
            && (response == Success ==>
                  && s'.nextPk == s.nextPk
                  && (forall pk :: pk in s'.relationships <==> pk in s.relationships && !ReadsAs(id, pk))
                  && (forall pk :: pk in s'.relationships ==> s'.relationships[pk] == s.relationships[pk]))
  {
  }

  /** Id number `i` names a row that is there, visible, deletable, and not deleted by an earlier id. */
  predicate Goes(s: State, a: Access, ids: seq<RawId>, i: nat)
    requires i < |ids|
  {
    && IsSeen(s, a, ids[i]) && a.mayDelete(ids[i].number.value)
    && forall j :: 0 <= j < i ==> !ReadsAs(ids[j], ids[i].number.value)
  }

  lemma GoesIsDeletable(s: State, a: Access, ids: seq<RawId>, i: nat)
    requires i < |ids|
    ensures Goes(s, a, ids, i) <==> IsDeletable(s, a, ids, i)
  {
    if IsReadable(ids[i]) {
      var n := ids[i].number.value;
      PksAreNamed(ids[..i], n);
      if Names(ids[..i], n) {
        var id :| id in ids[..i] && ReadsAs(id, n);
        var j :| 0 <= j < i && ids[j] == id;
      } else {
        forall j | 0 <= j < i ensures !ReadsAs(ids[j], n) {
          assert ids[j] in ids[..i];
        }
      }
    }
  }

  /** Removing many deletes the rows of the ids up to the first that cannot go, and says why it stopped. */
  lemma RemoveManyIsExact(s: State, ids: seq<RawId>, a: Access) returns (n: nat)
    ensures n <= |ids| && (forall i :: 0 <= i < n ==> Goes(s, a, ids, i)) && (n < |ids| ==> !Goes(s, a, ids, n))
    ensures var (s', response) := Step(s, RemoveMany(ids), a);
            && response == (if n == |ids| then Success else if ids[n].Malformed? then Raised else NotFound)
            && s'.nextPk == s.nextPk
            && (forall pk :: pk in s'.relationships <==>
                  pk in s.relationships && forall i :: 0 <= i < n ==> !ReadsAs(ids[i], pk))
            && (forall pk :: pk in s'.relationships ==> s'.relationships[pk] == s.relationships[pk])
  {
    n := DeletablePrefix(s, a, ids, 0);
    forall i | 0 <= i < |ids| { GoesIsDeletable(s, a, ids, i); }
    forall pk ensures pk in Pks(ids[..n]) <==> exists i :: 0 <= i < n && ReadsAs(ids[i], pk) {
      PksAreNamed(ids[..n], pk);
      if i :| 0 <= i < n && ReadsAs(ids[i], pk) {
        assert ids[..n][i] in ids[..n];
      }
    }
  }

  /* ---------- Runs ---------- */

  /** The operation adds the annotation to that side of the relationship, for a user who may and who sees it. */
  predicate Attaches(s: State, op: Op, a: Access, pk: int, side: Side, annotation: int) {
    && annotation >= 0 && annotation in a.annotations
    && match op
       case Add(_, sources, targets, labelId, corpusId, documentId) =>
         && pk == s.nextPk && Names(if side == Sources then sources else targets, annotation)
         && AllSeen(sources, a.annotations) && AllSeen(targets, a.annotations)
         && IsReadable(corpusId) && a.mayCreateIn(corpusId.number.value)
         && IsReadable(documentId) && a.seesDocument(documentId.number.value)
         && IsReadable(labelId) && a.seesLabel(labelId.number.value)
       case Update(id, addSources, addTargets, _, _) =>
         && ReadsAs(id, pk) && IsSeen(s, a, id) && a.mayUpdate(pk)
         && Names(if side == Sources then addSources else addTargets, annotation)
       case _ => false
  }

  lemma StepAttaches(s: State, op: Op, a: Access, pk: int, side: Side, annotation: int)
    requires IsAttached(Step(s, op, a).0, pk, side, annotation)
    ensures IsAttached(s, pk, side, annotation) || Attaches(s, op, a, pk, side, annotation)
  {
    match op
    case Add(user, sources, targets, labelId, corpusId, documentId) =>
      AddIsExact(s, user, sources, targets, labelId, corpusId, documentId, a);
    case Update(id, addSources, addTargets, removeSources, removeTargets) =>
      UpdateExactly(s, id, addSources, addTargets, removeSources, removeTargets, a);
    case Remove(id) => RemoveIsExact(s, id, a);
    case RemoveMany(ids) => var _ := RemoveManyIsExact(s, ids, a);
  }

  /**
   Over every run, whatever is attached to a relationship was attached by a step that named it
   among its additions to that side, for a user who might change that relationship and saw the
   annotation, and has stayed attached since. The step may have been an update that failed later.
   */
  lemma {:induction false} AttachedWasVisible(events: seq<Event>, n: nat, pk: int, side: Side,
                                        annotation: int)
    returns (k: nat)
    requires n <= |events| && IsAttached(After(State(map[], 0), events, n), pk, side, annotation)
    ensures k < n && Attaches(After(State(map[], 0), events, k), events[k].op, events[k].access, pk, side, annotation)
    ensures forall m :: k < m <= n ==> IsAttached(After(State(map[], 0), events, m), pk, side, annotation)
  {
    assert n > 0;
    var before, e := After(State(map[], 0), events, n - 1), events[n - 1];
    assert After(State(map[], 0), events, n) == Step(before, e.op, e.access).0;
    StepAttaches(before, e.op, e.access, pk, side, annotation);
    if IsAttached(before, pk, side, annotation) {
      k := AttachedWasVisible(events, n - 1, pk, side, annotation);
    } else {
      k := n - 1;
    }
  }

  /** The operation removes the relationship, for a user who sees it and may delete it. */
  predicate Removes(op: Op, a: Access, pk: int) {
    && a.seesRelationship(pk) && a.mayDelete(pk)
    && match op
       case Remove(id) => ReadsAs(id, pk)
       case RemoveMany(ids) => Names(ids, pk)
       case _ => false
  }

  lemma StepRemoves(s: State, op: Op, a: Access, pk: int)
    requires pk in s.relationships && pk !in Step(s, op, a).0.relationships
    ensures Removes(op, a, pk)
  {
    match op
    case Add(user, sources, targets, labelId, corpusId, documentId) =>
      AddIsExact(s, user, sources, targets, labelId, corpusId, documentId, a);
    case Update(id, addSources, addTargets, removeSources, removeTargets) =>
      UpdateExactly(s, id, addSources, addTargets, removeSources, removeTargets, a);
    case Remove(id) => RemoveIsExact(s, id, a);
    case RemoveMany(ids) =>
      var n := RemoveManyIsExact(s, ids, a);
      var i :| 0 <= i < n && ReadsAs(ids[i], pk);
      assert Goes(s, a, ids, i);
  }

  /**
   Over every run, a relationship that is gone was removed by a step that named it, for a user who
   saw it and might delete it.
   */
  lemma {:induction false} GoneWasRemoved(s: State, events: seq<Event>, m: nat, n: nat, pk: int) returns (k: nat)
    requires m <= n <= |events|
    requires pk in After(s, events, m).relationships && pk !in After(s, events, n).relationships
    ensures m <= k < n && pk in After(s, events, k).relationships && Removes(events[k].op, events[k].access, pk)
  {
    if pk in After(s, events, n - 1).relationships {
      k := n - 1;
      StepRemoves(After(s, events, k), events[k].op, events[k].access, pk);
    } else {
      k := GoneWasRemoved(s, events, m, n - 1, pk);
    }
  }
}
