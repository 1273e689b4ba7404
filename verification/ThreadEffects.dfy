/**
 What each discussion mutation takes and what it does, said of the ids, texts and answers as they
 are given: when it succeeds, what the new rows hold, and which answer it gives otherwise.
 */
module ThreadEffects {
  import opened Wrappers
  import opened Text
  import opened Threads
  import opened ThreadSafety

  /* ---------- Links ---------- */

  /**
   The links of a message with this content, and no others: the first document found for the slugs
   mentioned, every visible annotation with a mentioned id unless one id is no key, and every agent
   at hand with a mentioned slug.
   */
  ghost predicate HasExactLinks(m: Message, w: World, a: Access, corpus: Option<nat>) {
    match w.parse(m.content)
    case None => m.sourceDocument == None && m.sourceAnnotations == {} && m.mentionedAgents == {}
    case Some(Mentions(documents, annotations, agents)) =>
      && m.sourceDocument == (if documents == {} then None else a.firstDocument(documents))
      && (forall pk :: pk in m.sourceAnnotations <==>
            && pk in a.annotations && (forall id :: id in annotations ==> w.annotationPk(id).Some?)
            && (exists id :: id in annotations && w.annotationPk(id) == Some(pk)))
      && (forall pk :: pk in m.mentionedAgents <==> pk in a.agents(corpus) && w.agentSlug(pk) in agents)
  }

  lemma LinksAreExact(m: Message, w: World, a: Access, corpus: Option<nat>)
    requires m.sourceDocument == None && m.sourceAnnotations == {} && m.mentionedAgents == {}
    ensures var m' := LinkedByContent(m, w, a, corpus);
            && m'.conversation == m.conversation && m'.parent == m.parent && m'.creator == m.creator
            && m'.content == m.content && m'.deletedAt == m.deletedAt
            && HasExactLinks(m', w, a, corpus)
  {
  }

  /** One message is new, without a deletion time and with the links of its content. */
  ghost predicate AddsMessage(s: State, s': State, conversation: nat, parent: Option<nat>, creator: User,
                              content: string, w: World, a: Access, corpus: Option<nat>)
  {
    && |s'.messages| == |s.messages| + 1
    && (forall i :: 0 <= i < |s.messages| ==> s'.messages[i] == s.messages[i])
    && var m := s'.messages[|s.messages|];
       && m.conversation == conversation && m.parent == parent && m.creator == creator && m.content == content
       && m.deletedAt == None && HasExactLinks(m, w, a, corpus)
  }

  /* ---------- Creating, posting, replying ---------- */

  /** The id, if there is one, is a key that may be read. */
  predicate MayRead(readable: nat -> bool, id: Option<GlobalId>) {
    id.Some? ==> id.value.Pk? && readable(id.value.pk)
  }

  /**
   A thread takes a corpus or a document, and each that is given must be readable. Then it is open,
   stands in what was given, and has its first message; everything else stays.
   */
  lemma CreateThreadExactly(s: State, user: User, title: string, description: string, text: string,
                            corpusId: Option<GlobalId>, documentId: Option<GlobalId>, w: World, a: Access, now: nat)
    requires Valid(s)
    ensures var (s', r) := Step(s, CreateThread(user, title, description, text, corpusId, documentId), w, a, now);
            && r == (if corpusId == None && documentId == None then NoPlace
                     else if MayRead(a.readsCorpus, corpusId) && MayRead(a.readsDocument, documentId)
                       then Created(|s.conversations|)
                     else NotPermitted)
            && (!r.Created? ==> s' == s)
            && (r.Created? ==>
                  && |s'.conversations| == |s.conversations| + 1
                  && (forall c :: 0 <= c < |s.conversations| ==> s'.conversations[c] == s.conversations[c])
                  && var c := s'.conversations[|s.conversations|];
                     && c.title == title && c.description == description && c.creator == user
                     && !c.isLocked && c.deletedAt == None
                     && corpusId == (if c.corpus.Some? then Some(Pk(c.corpus.value)) else None)
                     && documentId == (if c.document.Some? then Some(Pk(c.document.value)) else None)
                     && AddsMessage(s, s', |s.conversations|, None, user, text, w, a, c.corpus))
  {
    LinksAreExact(FreshMessage(|s.conversations|, None, user, text), w, a, PkOf(corpusId));
  }

  /** Posting takes a thread that is there, not deleted, visible and not locked. */
  lemma PostExactly(s: State, user: User, id: GlobalId, content: string, w: World, a: Access, now: nat)
    requires Valid(s)
    ensures var (s', r) := Step(s, Post(user, id, content), w, a, now);
            && r == (if !(id.Pk? && id.pk < |s.conversations| && s.conversations[id.pk].deletedAt == None &&
                          a.seesConversation(id.pk)) then NotPermitted
                     else if s.conversations[id.pk].isLocked then IsLocked
                     else Created(|s.messages|))
            && (!r.Created? ==> s' == s)
            && (r.Created? ==>
                  && s'.conversations == s.conversations
                  && AddsMessage(s, s', id.pk, None, user, content, w, a, s.conversations[id.pk].corpus))
  {
    if id.Pk? && id.pk < |s.conversations| {
      LinksAreExact(FreshMessage(id.pk, None, user, content), w, a, s.conversations[id.pk].corpus);
    }
  }

  /** Replying takes a message that is there, not deleted and visible, in a readable thread that is not locked. */
  lemma ReplyExactly(s: State, user: User, id: GlobalId, content: string, w: World, a: Access, now: nat)
    requires Valid(s)
    ensures var (s', r) := Step(s, Reply(user, id, content), w, a, now);
            && r == (if !(id.Pk? && id.pk < |s.messages| && s.messages[id.pk].deletedAt == None &&
                          a.seesMessage(id.pk) && a.mayReadConversation(s.messages[id.pk].conversation))
                       then NotPermitted
                     else if IsPlaced(s, id.pk) && s.conversations[s.messages[id.pk].conversation].isLocked
                       then IsLocked
                     else Created(|s.messages|))
            && (!r.Created? ==> s' == s)
            && (r.Created? ==>
                  && IsPlaced(s, id.pk) && s'.conversations == s.conversations
                  && var c := s.messages[id.pk].conversation;
                     AddsMessage(s, s', c, Some(id.pk), user, content, w, a, s.conversations[c].corpus))
  {
    if id.Pk? && id.pk < |s.messages| {
      assert IsPlaced(s, id.pk);
      var c := s.messages[id.pk].conversation;
      LinksAreExact(FreshMessage(c, Some(id.pk), user, content), w, a, s.conversations[c].corpus);
    }
  }

  /* ---------- Editing ---------- */

  /** The message can be found, by an author or a moderator even where it is hidden or deleted, and edited. */
  predicate MayChange(m: Message, a: Access, user: User, pk: nat) {
    && ((m.deletedAt == None && a.seesMessage(pk)) || m.creator == user || a.moderates(m.conversation))
    && (a.mayEditMessage(pk) || a.moderates(m.conversation))
  }

  /** One message has another content, with the links of that content; everything else stays. */
  lemma UpdateExactly(s: State, user: User, id: GlobalId, content: string, w: World, a: Access, now: nat)
    requires Valid(s)
    ensures var (s', r) := Step(s, Update(user, id, content), w, a, now);
            && r == (if id.Malformed? then Failed
                     else if forall c :: c in content ==> IsSpace(c) then IsEmpty
                     else if !(id.pk < |s.messages| && MayChange(s.messages[id.pk], a, user, id.pk)) then NotPermitted
                     else if IsPlaced(s, id.pk) && s.conversations[s.messages[id.pk].conversation].isLocked
                       then IsLocked
                     else if s.messages[id.pk].deletedAt.Some? then IsDeleted
                     else Updated(w.parse(content).Some?))
            && (!r.Updated? ==> s' == s)
            && (r.Updated? ==>
                  && s'.conversations == s.conversations && |s'.messages| == |s.messages|
                  && (forall i :: 0 <= i < |s.messages| && i != id.pk ==> s'.messages[i] == s.messages[i])
                  && IsPlaced(s, id.pk)
                  && var m, m' := s.messages[id.pk], s'.messages[id.pk];
                     && SamePlace(m, m') && m'.content == content && m'.deletedAt == None
                     && HasExactLinks(m', w, a, s.conversations[m.conversation].corpus))
  {
    if id.Pk? && id.pk < |s.messages| {
      assert IsPlaced(s, id.pk);
      var m := s.messages[id.pk];
      LinksAreExact(Unlinked(m.(content := content)), w, a, s.conversations[m.conversation].corpus);
    }
  }

  /* ---------- Deleting ---------- */

  /** A message that is there, not deleted and visible, for a user who may delete it or moderates its thread. */
  predicate MayDelete(s: State, a: Access, id: GlobalId) {
    && id.Pk? && id.pk < |s.messages| && s.messages[id.pk].deletedAt == None && a.seesMessage(id.pk)
    && (a.mayDeleteMessage(id.pk) || a.moderates(s.messages[id.pk].conversation))
  }

  /** Deleting a message sets its deletion time and nothing else; locks play no part. */
  lemma DeleteMessageExactly(s: State, user: User, id: GlobalId, w: World, a: Access, now: nat)
    requires Valid(s)
    ensures var (s', r) := Step(s, DeleteMessage(user, id), w, a, now);
            && r == (if MayDelete(s, a, id) then Done else NotPermitted)
            && (r != Done ==> s' == s)
            && (r == Done ==>
                  && s'.conversations == s.conversations && |s'.messages| == |s.messages|
                  && (forall i :: 0 <= i < |s.messages| && i != id.pk ==> s'.messages[i] == s.messages[i])
                  && s'.messages[id.pk].deletedAt == Some(now)
                  && s'.messages[id.pk].(deletedAt := None) == s.messages[id.pk])
  {
  }

  /** A thread that is there, not deleted and visible, for a user who may delete it or moderates it. */
  predicate MayDeleteThread(s: State, a: Access, id: GlobalId) {
    && id.Pk? && id.pk < |s.conversations| && s.conversations[id.pk].deletedAt == None && a.seesConversation(id.pk)
    && (a.mayDeleteConversation(id.pk) || a.moderates(id.pk))
  }

  /** Deleting a thread sets its deletion time and nothing else: its messages stay. */
  lemma DeleteConversationExactly(s: State, user: User, id: GlobalId, w: World, a: Access, now: nat)
    requires Valid(s)
    ensures var (s', r) := Step(s, DeleteConversation(user, id), w, a, now);
            && r == (if MayDeleteThread(s, a, id) then Done else NotPermitted)
            && (r != Done ==> s' == s)
            && (r == Done ==>
                  && s'.messages == s.messages && |s'.conversations| == |s.conversations|
                  && (forall c :: 0 <= c < |s.conversations| && c != id.pk ==>
                        s'.conversations[c] == s.conversations[c])
                  && s'.conversations[id.pk].deletedAt == Some(now)
                  && s'.conversations[id.pk].(deletedAt := None) == s.conversations[id.pk])
  {
  }

  /* ---------- Runs ---------- */

  lemma StepDeletes(s: State, op: Op, w: World, a: Access, now: nat, i: nat)
    requires Valid(s) && i < |Step(s, op, w, a, now).0.messages|
    requires i < |s.messages| ==> s.messages[i].deletedAt == None
    ensures Step(s, op, w, a, now).0.messages[i].deletedAt.Some? ==>
              op.DeleteMessage? && op.messageId == Pk(i) && MayDelete(s, a, op.messageId)
  {
    StepShape(s, op, w, a, now);
    match op
    case DeleteMessage(user, id) => DeleteMessageExactly(s, user, id, w, a, now);
    case Update(user, id, content) => UpdateExactly(s, user, id, content, w, a, now);
    case _ =>
  }

  /**
   Over every run, a message that became deleted was deleted by a step that named it, for a user who
   then saw it and might delete it or moderated its thread.
   */
  lemma {:induction false} DeletionsWereAllowed(s: State, events: seq<Event>, w: World, n: nat, i: nat)
    returns (k: nat)
    requires Valid(s) && n <= |events| && (i < |s.messages| ==> s.messages[i].deletedAt == None)
    requires i < |After(s, events, w, n).messages| && After(s, events, w, n).messages[i].deletedAt.Some?
    ensures k < n && events[k].op.DeleteMessage? && events[k].op.messageId == Pk(i)
    ensures MayDelete(After(s, events, w, k), events[k].access, Pk(i))
  {
    var before, e := After(s, events, w, n - 1), events[n - 1];
    if i < |before.messages| && before.messages[i].deletedAt.Some? {
      k := DeletionsWereAllowed(s, events, w, n - 1, i);
    } else {
      k := n - 1;
      StepDeletes(before, e.op, w, e.access, e.now, i);
    }
  }

  lemma StepDeletesThread(s: State, op: Op, w: World, a: Access, now: nat, c: nat)
    requires Valid(s) && c < |Step(s, op, w, a, now).0.conversations|
    requires c < |s.conversations| ==> s.conversations[c].deletedAt == None
    ensures Step(s, op, w, a, now).0.conversations[c].deletedAt.Some? ==>
              op.DeleteConversation? && op.conversationId == Pk(c) && MayDeleteThread(s, a, op.conversationId)
  {
    match op
    case DeleteConversation(user, id) => DeleteConversationExactly(s, user, id, w, a, now);
    case _ =>
  }

  /** The same for threads. */
  lemma {:induction false} ThreadDeletionsWereAllowed(s: State, events: seq<Event>, w: World, n: nat, c: nat)
    returns (k: nat)
    requires Valid(s) && n <= |events| && (c < |s.conversations| ==> s.conversations[c].deletedAt == None)
    requires c < |After(s, events, w, n).conversations| && After(s, events, w, n).conversations[c].deletedAt.Some?
    ensures k < n && events[k].op.DeleteConversation? && events[k].op.conversationId == Pk(c)
    ensures MayDeleteThread(After(s, events, w, k), events[k].access, Pk(c))
  {
    var before, e := After(s, events, w, n - 1), events[n - 1];
    if c < |before.conversations| && before.conversations[c].deletedAt.Some? {
      k := ThreadDeletionsWereAllowed(s, events, w, n - 1, c);
    } else {
      k := n - 1;
      StepDeletesThread(before, e.op, w, e.access, e.now, c);
    }
  }

  /** The operation puts this message into an open place that its author, the user, reaches. */
  predicate Places(s: State, op: Op, a: Access, m: Message) {
    match op
    case CreateThread(user, _, _, _, corpusId, documentId) =>
      && m.creator == user && m.parent == None && m.conversation == |s.conversations|
      && (corpusId.Some? || documentId.Some?)
      && MayRead(a.readsCorpus, corpusId) && MayRead(a.readsDocument, documentId)
    case Post(user, id, _) =>
      && m.creator == user && m.parent == None && id == Pk(m.conversation) && m.conversation < |s.conversations|
      && s.conversations[m.conversation].deletedAt == None && !s.conversations[m.conversation].isLocked
      && a.seesConversation(m.conversation)
    case Reply(user, id, _) =>
      && m.creator == user && id.Pk? && m.parent == Some(id.pk) && id.pk < |s.messages|
      && s.messages[id.pk].conversation == m.conversation < |s.conversations|
      && s.messages[id.pk].deletedAt == None && a.seesMessage(id.pk)
      && a.mayReadConversation(m.conversation) && !s.conversations[m.conversation].isLocked
    case _ => false
  }

  lemma StepPlaces(s: State, op: Op, w: World, a: Access, now: nat, i: nat)
    requires Valid(s) && |s.messages| <= i < |Step(s, op, w, a, now).0.messages|
    ensures Places(s, op, a, Step(s, op, w, a, now).0.messages[i])
  {
    StepShape(s, op, w, a, now);
    match op
    case CreateThread(user, title, description, text, corpusId, documentId) =>
      CreateThreadExactly(s, user, title, description, text, corpusId, documentId, w, a, now);
    case Post(user, id, content) => PostExactly(s, user, id, content, w, a, now);
    case Reply(user, id, content) => ReplyExactly(s, user, id, content, w, a, now);
    case _ =>
  }

  /**
   Over every run, each new message was put where it is by a step of its author, who reached the
   place and the message replied to, while the thread was not locked.
   */
  lemma {:induction false} MessagesWerePlaced(s: State, events: seq<Event>, w: World, n: nat, i: nat)
    returns (k: nat)
    requires Valid(s) && n <= |events| && |s.messages| <= i < |After(s, events, w, n).messages|
    ensures k < n && i == |After(s, events, w, k).messages|
    ensures Places(After(s, events, w, k), events[k].op, events[k].access, After(s, events, w, n).messages[i])
  {
    var before, e := After(s, events, w, n - 1), events[n - 1];
    StepShape(before, e.op, w, e.access, e.now);
    if i < |before.messages| {
      k := MessagesWerePlaced(s, events, w, n - 1, i);
      StepOnMessage(before, e.op, w, e.access, e.now, i);
      SamePlaceIsPlaced(After(s, events, w, k), events[k].op, events[k].access, before.messages[i],
        After(s, events, w, n).messages[i]);
    } else {
      k := n - 1;
      StepPlaces(before, e.op, w, e.access, e.now, i);
    }
  }

  lemma SamePlaceIsPlaced(s: State, op: Op, a: Access, m: Message, m': Message)
    requires Places(s, op, a, m) && SamePlace(m, m')
    ensures Places(s, op, a, m')
  {
  }
}
