/**
 What holds over every run of the discussion mutations, with locking, unlocking and restoring as
 steps of the environment.
 */
module ThreadSafety {
  import opened Wrappers
  import opened Text
  import opened Threads

  /** One step of a run: the operation, and what the services and the clock say then. */
  datatype Event = Event(op: Op, access: Access, now: nat)

  function Next(s: State, e: Event, w: World): State
    requires Valid(s)
  {
    Step(s, e.op, w, e.access, e.now).0
  }

  /** The state after the first `n` events. */
  function After(s: State, events: seq<Event>, w: World, n: nat): (r: State)
    requires Valid(s) && n <= |events|
    ensures Valid(r)
  {
    if n == 0 then s
    else
      var before := After(s, events, w, n - 1);
      StepKeepsValid(before, events[n - 1].op, w, events[n - 1].access, events[n - 1].now);
      Next(before, events[n - 1], w)
  }

  /* ---------- One step ---------- */

  /** The messages of a step: one is added, one is changed, or none. */
  lemma StepShape(s: State, op: Op, w: World, a: Access, now: nat)
    requires Valid(s)
    ensures var s' := Step(s, op, w, a, now).0;
            && |s.messages| <= |s'.messages| <= |s.messages| + 1
            && |s.conversations| <= |s'.conversations| <= |s.conversations| + 1
            && (forall i :: 0 <= i < |s.messages| ==>
                  s'.messages[i] == s.messages[i] || (Targets(op, i) && |s'.messages| == |s.messages|))
    ensures var s' := Step(s, op, w, a, now).0;
            |s'.messages| > |s.messages| ==> Adds(s, op, a, s'.messages[|s.messages|], s')
  {
    if op.Reply? && FindsMessage(s, a, op.parentId) {
      assert IsPlaced(s, op.parentId.pk);
    }
    if op.Update? && op.messageId.Pk? && op.messageId.pk < |s.messages| {
      assert IsPlaced(s, op.messageId.pk);
    }
  }

  /** The operation is about message `i`. */
  predicate Targets(op: Op, i: nat) {
    match op
    case Update(_, id, _) => id == Pk(i)
    case DeleteMessage(_, id) => id == Pk(i)
    case RestoreMessage(m) => m == i
    case _ => false
  }

  /** What a new message looks like, and the conversation it goes into: a new one, or one not locked. */
  predicate Adds(s: State, op: Op, a: Access, m: Message, s': State) {
    match op
    case CreateThread(user, _, _, content, _, _) =>
      m.conversation == |s.conversations| < |s'.conversations| && m.parent.None? && m.creator == user &&
        m.content == content && m.deletedAt.None?
    case Post(user, id, content) =>
      && FindsConversation(s, a, id) && m.conversation == id.pk && !s.conversations[id.pk].isLocked
      && m.parent.None? && m.creator == user && m.content == content && m.deletedAt.None?
    case Reply(user, id, content) =>
      && FindsMessage(s, a, id) && m.conversation == s.messages[id.pk].conversation < |s.conversations|
      && !s.conversations[m.conversation].isLocked
      && m.parent == Some(id.pk) && m.creator == user && m.content == content && m.deletedAt.None?
    case _ => false
  }

  /** What never changes in a message. */
  predicate SamePlace(m: Message, m': Message) {
    m'.conversation == m.conversation && m'.parent == m.parent && m'.creator == m.creator
  }

  /** What editing changes. */
  predicate SameText(m: Message, m': Message) {
    && m'.content == m.content && m'.sourceDocument == m.sourceDocument
    && m'.sourceAnnotations == m.sourceAnnotations && m'.mentionedAgents == m.mentionedAgents
  }

  /** An edit of message `i` that goes through. */
  predicate Edits(s: State, op: Op, a: Access, i: nat)
    requires Valid(s) && i < |s.messages|
  {
    && op.Update? && op.messageId == Pk(i) && !IsBlank(op.content)
    && MayEdit(s, a, op.user, i)
    && s.messages[i].deletedAt.None?
    && s.messages[i].conversation < |s.conversations| && !s.conversations[s.messages[i].conversation].isLocked
  }

  lemma StepOnMessage(s: State, op: Op, w: World, a: Access, now: nat, i: nat)
    requires Valid(s) && i < |s.messages|
    ensures var s' := Step(s, op, w, a, now).0;
            && i < |s'.messages| && SamePlace(s.messages[i], s'.messages[i])
            && (!SameText(s.messages[i], s'.messages[i]) ==> Edits(s, op, a, i))
            && (s.messages[i].deletedAt.Some? && s'.messages[i].deletedAt.None? ==> op == RestoreMessage(i))
  {
    StepShape(s, op, w, a, now);
    assert IsPlaced(s, i);
  }

  lemma StepKeepsValid(s: State, op: Op, w: World, a: Access, now: nat)
    requires Valid(s)
    ensures Valid(Step(s, op, w, a, now).0)
  {
    var s' := Step(s, op, w, a, now).0;
    StepShape(s, op, w, a, now);
    forall i | 0 <= i < |s'.messages| ensures IsPlaced(s', i) {
      if i < |s.messages| {
        assert IsPlaced(s, i);
        StepOnMessage(s, op, w, a, now, i);
        match s.messages[i].parent
        case None =>
        case Some(p) => StepOnMessage(s, op, w, a, now, p);
      }
    }
  }

  /** An edit succeeds exactly when it is allowed, the thread is not locked and the message not deleted. */
  lemma EditSucceedsExactly(s: State, user: User, id: GlobalId, content: string, w: World, a: Access, now: nat)
    requires Valid(s)
    ensures Step(s, Update(user, id, content), w, a, now).1.Updated? <==>
            id.Pk? && id.pk < |s.messages| && Edits(s, Update(user, id, content), a, id.pk)
    ensures Step(s, Update(user, id, content), w, a, now).1.Updated? ==>
            Step(s, Update(user, id, content), w, a, now).0.messages[id.pk].content == content
  {
    if id.Pk? && id.pk < |s.messages| {
      assert IsPlaced(s, id.pk);
    }
  }

  /** Whatever is refused changes nothing. */
  lemma RefusalChangesNothing(s: State, op: Op, w: World, a: Access, now: nat)
    requires Valid(s)
    ensures var (s', r) := Step(s, op, w, a, now);
            !r.Created? && !r.Updated? && !r.Done? ==> s' == s
  {
  }

  /** A conversation's lock is changed by the environment alone. */
  lemma StepOnLock(s: State, op: Op, w: World, a: Access, now: nat, c: nat)
    requires Valid(s) && c < |s.conversations|
    ensures var s' := Step(s, op, w, a, now).0;
            && c < |s'.conversations|
            && (s.conversations[c].isLocked && !s'.conversations[c].isLocked ==> op == Unlock(c))
  {
  }

  /* ---------- Runs ---------- */

  /** No row disappears, and a message keeps its thread, its parent and its author. */
  lemma {:induction false} RowsStay(s: State, events: seq<Event>, w: World, n: nat, i: nat)
    requires Valid(s) && n <= |events| && i < |s.messages|
    ensures var r := After(s, events, w, n);
            |s.messages| <= |r.messages| && |s.conversations| <= |r.conversations| &&
              SamePlace(s.messages[i], r.messages[i])
  {
    if n > 0 {
      RowsStay(s, events, w, n - 1, i);
      var before, e := After(s, events, w, n - 1), events[n - 1];
      StepShape(before, e.op, w, e.access, e.now);
      StepOnMessage(before, e.op, w, e.access, e.now, i);
    }
  }

  predicate Unlocks(events: seq<Event>, c: nat) {
    exists k :: 0 <= k < |events| && events[k].op == Unlock(c)
  }

  /**
   While a thread is locked, no message is added to it and no message of it changes its content or
   its links, whoever asks.
   */
  lemma {:induction false} LockedThreadIsFrozen(s: State, events: seq<Event>, w: World, n: nat, c: nat, i: nat)
    requires Valid(s) && n <= |events| && c < |s.conversations| && s.conversations[c].isLocked && !Unlocks(events, c)
    requires i < |After(s, events, w, n).messages| && After(s, events, w, n).messages[i].conversation == c
    ensures var r := After(s, events, w, n);
            && c < |r.conversations| && r.conversations[c].isLocked
            && i < |s.messages| && SameText(s.messages[i], r.messages[i])
  {
    if n > 0 {
      var before, e := After(s, events, w, n - 1), events[n - 1];
      LockStays(s, events, w, n - 1, c);
      LockStays(s, events, w, n, c);
      StepShape(before, e.op, w, e.access, e.now);
      if i < |before.messages| {
        StepOnMessage(before, e.op, w, e.access, e.now, i);
        assert IsPlaced(before, i);
        LockedThreadIsFrozen(s, events, w, n - 1, c, i);
      }
    }
  }

  lemma {:induction false} LockStays(s: State, events: seq<Event>, w: World, n: nat, c: nat)
    requires Valid(s) && n <= |events| && c < |s.conversations| && s.conversations[c].isLocked && !Unlocks(events, c)
    ensures var r := After(s, events, w, n);
            c < |r.conversations| && r.conversations[c].isLocked
  {
    if n > 0 {
      LockStays(s, events, w, n - 1, c);
      StepOnLock(After(s, events, w, n - 1), events[n - 1].op, w, events[n - 1].access, events[n - 1].now, c);
    }
  }

  predicate Restores(events: seq<Event>, i: nat) {
    exists k :: 0 <= k < |events| && events[k].op == RestoreMessage(i)
  }

  /** A deleted message's content and links never change, until it is restored. */
  lemma {:induction false} DeletedMessageIsFrozen(s: State, events: seq<Event>, w: World, n: nat, i: nat)
    requires Valid(s) && n <= |events| && i < |s.messages| && s.messages[i].deletedAt.Some? && !Restores(events, i)
    ensures var r := After(s, events, w, n);
            i < |r.messages| && r.messages[i].deletedAt.Some? && SameText(s.messages[i], r.messages[i])
  {
    if n > 0 {
      DeletedMessageIsFrozen(s, events, w, n - 1, i);
      StepOnMessage(After(s, events, w, n - 1), events[n - 1].op, w, events[n - 1].access, events[n - 1].now, i);
    }
  }

  /** A changed content is the work of an edit in the run that was allowed when it was made. */
  lemma {:induction false} ChangesAreEdits(s: State, events: seq<Event>, w: World, n: nat, i: nat) returns (k: nat)
    requires Valid(s) && n <= |events| && i < |s.messages|
    requires i < |After(s, events, w, n).messages| && !SameText(s.messages[i], After(s, events, w, n).messages[i])
    ensures k < n && i < |After(s, events, w, k).messages|
    ensures Edits(After(s, events, w, k), events[k].op, events[k].access, i)
  {
    var before, e := After(s, events, w, n - 1), events[n - 1];
    RowsStay(s, events, w, n - 1, i);
    if SameText(s.messages[i], before.messages[i]) {
      k := n - 1;
      StepOnMessage(before, e.op, w, e.access, e.now, i);
    } else {
      k := ChangesAreEdits(s, events, w, n - 1, i);
    }
  }

  /* ---------- Mention links ---------- */

  /** Every link of a message is mentioned in its content. */
  ghost predicate IsLinkedByContent(m: Message, w: World) {
    match w.parse(m.content)
    case None => m.sourceDocument.None? && m.sourceAnnotations == {} && m.mentionedAgents == {}
    case Some(mentions) =>
      && (m.sourceDocument.Some? ==> w.documentSlug(m.sourceDocument.value) in mentions.documents)
      && (forall pk :: pk in m.sourceAnnotations ==> NamesAnnotation(w, mentions.annotations, pk))
      && (forall pk :: pk in m.mentionedAgents ==> w.agentSlug(pk) in mentions.agents)
  }

  ghost predicate AreLinkedByContent(s: State, w: World) {
    forall i :: 0 <= i < |s.messages| ==> IsLinkedByContent(s.messages[i], w)
  }

  ghost predicate AreAccesses(events: seq<Event>, w: World) {
    forall k :: 0 <= k < |events| ==> IsAccess(events[k].access, w)
  }

  lemma LinkingLinks(m: Message, w: World, a: Access, corpus: Option<nat>)
    requires IsAccess(a, w) && m == Unlinked(m)
    ensures IsLinkedByContent(LinkedByContent(m, w, a, corpus), w)
  {
  }

  lemma StepKeepsLinks(s: State, op: Op, w: World, a: Access, now: nat)
    requires Valid(s) && AreLinkedByContent(s, w) && IsAccess(a, w)
    ensures AreLinkedByContent(Step(s, op, w, a, now).0, w)
  {
    match op
    case CreateThread(user, _, _, content, corpusId, documentId) =>
      LinkingLinks(FreshMessage(|s.conversations|, None, user, content), w, a, PkOf(corpusId));
    case Post(user, id, content) =>
      if FindsConversation(s, a, id) {
        LinkingLinks(FreshMessage(id.pk, None, user, content), w, a, s.conversations[id.pk].corpus);
      }
    case Reply(user, id, content) =>
      if FindsMessage(s, a, id) {
        assert IsPlaced(s, id.pk);
        var c := s.messages[id.pk].conversation;
        LinkingLinks(FreshMessage(c, Some(id.pk), user, content), w, a, s.conversations[c].corpus);
      }
    case Update(user, id, content) =>
      if id.Pk? && id.pk < |s.messages| {
        assert IsPlaced(s, id.pk);
        var m := s.messages[id.pk];
        LinkingLinks(Unlinked(m.(content := content)), w, a, s.conversations[m.conversation].corpus);
      }
    case _ =>
  }

  /** After any run, each message links only what its present content mentions. */
  lemma {:induction false} LinksFollowContent(s: State, events: seq<Event>, w: World, n: nat)
    requires Valid(s) && n <= |events| && AreLinkedByContent(s, w) && AreAccesses(events, w)
    ensures AreLinkedByContent(After(s, events, w, n), w)
  {
    if n > 0 {
      LinksFollowContent(s, events, w, n - 1);
      StepKeepsLinks(After(s, events, w, n - 1), events[n - 1].op, w, events[n - 1].access, events[n - 1].now);
    }
  }

  /* ---------- Replies form a forest ---------- */

  /** The message that a chain of replies started from. */
  function Root(s: State, i: nat): (r: nat)
    requires Valid(s) && i < |s.messages|
    ensures r <= i && s.messages[r].parent.None? && s.messages[r].conversation == s.messages[i].conversation
  {
    assert IsPlaced(s, i);
    match s.messages[i].parent
    case None => i
    case Some(p) => Root(s, p)
  }

  /** How many replies stand between a message and its root. */
  function Depth(s: State, i: nat): nat
    requires Valid(s) && i < |s.messages|
  {
    assert IsPlaced(s, i);
    match s.messages[i].parent
    case None => 0
    case Some(p) => 1 + Depth(s, p)
  }

  /** Roots and depths stay: the forest only grows new leaves. */
  lemma {:induction false} ForestGrows(s: State, events: seq<Event>, w: World, n: nat, i: nat)
    requires Valid(s) && n <= |events| && i < |s.messages|
    ensures var r := After(s, events, w, n);
            i < |r.messages| && Root(r, i) == Root(s, i) && Depth(r, i) == Depth(s, i)
    decreases i
  {
    RowsStay(s, events, w, n, i);
    assert IsPlaced(s, i);
    match s.messages[i].parent
    case None =>
    case Some(p) => ForestGrows(s, events, w, n, p);
  }
}
