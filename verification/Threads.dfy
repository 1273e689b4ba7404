/**
 Discussion threads (`config/graphql/conversation_mutations.py`): creating a thread, posting,
 replying, editing and deleting, as steps over a store whose rows are numbered in the order of
 their creation. Visibility and permission services answer through `Access`; they may answer
 differently in every step.
 */
module Threads {
  import opened Wrappers
  import opened Text

  type User = nat

  datatype Conversation = Conversation(
    title: string, description: string, corpus: Option<nat>, document: Option<nat>,
    creator: User, isLocked: bool, deletedAt: Option<nat>)

  datatype Message = Message(
    conversation: nat, parent: Option<nat>, creator: User, content: string, deletedAt: Option<nat>,
    sourceDocument: Option<nat>, sourceAnnotations: set<nat>, mentionedAgents: set<nat>)

  datatype Mentions = Mentions(documents: set<string>, annotations: set<string>, agents: set<string>)

  /**
   What does not change during a run: how mentions are read, `None` where that raises, and the names
   of things; `annotationPk` is `None` where a mentioned id is no primary key.
   */
  datatype World = World(
    parse: string -> Option<Mentions>,
    documentSlug: nat -> string,
    annotationPk: string -> Option<nat>,
    agentSlug: nat -> string)

  /** What the services answer in one step to its user. */
  datatype Access = Access(
    readsCorpus: nat -> bool,
    readsDocument: nat -> bool,
    seesConversation: nat -> bool,
    seesMessage: nat -> bool,
    mayReadConversation: nat -> bool,
    mayDeleteConversation: nat -> bool,
    mayEditMessage: nat -> bool,
    mayDeleteMessage: nat -> bool,
    moderates: nat -> bool,
    firstDocument: set<string> -> Option<nat>,
    annotations: set<nat>,
    agents: Option<nat> -> set<nat>)

  /** The document linked is one with a mentioned slug. */
  ghost predicate IsAccess(a: Access, w: World) {
    forall slugs :: a.firstDocument(slugs).Some? ==> w.documentSlug(a.firstDocument(slugs).value) in slugs
  }

  /** A global id from a request: malformed, or a primary key. */
  datatype GlobalId = Malformed | Pk(pk: nat)

  datatype State = State(conversations: seq<Conversation>, messages: seq<Message>)

  datatype Op =
    | CreateThread(user: User, title: string, description: string, initialMessage: string,
                   corpusId: Option<GlobalId>, documentId: Option<GlobalId>)
    | Post(user: User, conversationId: GlobalId, content: string)
    | Reply(user: User, parentId: GlobalId, content: string)
    | Update(user: User, messageId: GlobalId, content: string)
    | DeleteConversation(user: User, conversationId: GlobalId)
    | DeleteMessage(user: User, messageId: GlobalId)
    | Lock(conversation: nat)
    | Unlock(conversation: nat)
    | RestoreMessage(message: nat)
    | RestoreConversation(conversation: nat)

  datatype Response =
    | Created(pk: nat) | Updated(mentionsRead: bool) | Done
    | NoPlace | NotPermitted | IsLocked | IsEmpty | IsDeleted | Failed

  /* ---------- Linking mentions ---------- */

  predicate NamesAnnotation(w: World, ids: set<string>, pk: nat) {
    exists id :: id in ids && w.annotationPk(id) == Some(pk)
  }

  /** The first document mentioned, if one is found; else what was linked before. */
  function DocumentFor(current: Option<nat>, slugs: set<string>, a: Access): Option<nat> {
    if slugs != {} && a.firstDocument(slugs).Some? then a.firstDocument(slugs) else current
  }

  /** The annotations found; one bad id spoils the query for all. */
  function AnnotationsFor(current: set<nat>, ids: set<string>, w: World, a: Access): set<nat> {
    if ids != {} && forall id :: id in ids ==> w.annotationPk(id).Some?
    then set pk | pk in a.annotations && NamesAnnotation(w, ids, pk)
    else current
  }

  function AgentsFor(current: set<nat>, slugs: set<string>, w: World, a: Access, corpus: Option<nat>): set<nat> {
    if slugs != {} then set pk | pk in a.agents(corpus) && w.agentSlug(pk) in slugs else current
  }

  /** `link_message_to_resources` */
  function Linked(m: Message, mentions: Mentions, w: World, a: Access, corpus: Option<nat>): Message {
    m.(sourceDocument := DocumentFor(m.sourceDocument, mentions.documents, a),
       sourceAnnotations := AnnotationsFor(m.sourceAnnotations, mentions.annotations, w, a),
       mentionedAgents := AgentsFor(m.mentionedAgents, mentions.agents, w, a, corpus))
  }

  function LinkedByContent(m: Message, w: World, a: Access, corpus: Option<nat>): Message {
    match w.parse(m.content)
    case None => m
    case Some(mentions) => Linked(m, mentions, w, a, corpus)
  }

  function Unlinked(m: Message): Message {
    m.(sourceDocument := None, sourceAnnotations := {}, mentionedAgents := {})
  }

  /* ---------- The store ---------- */

  function FreshMessage(conversation: nat, parent: Option<nat>, creator: User, content: string): Message {
    Message(conversation, parent, creator, content, None, None, {}, {})
  }

  /** Rows point to rows that were there before. */
  predicate Valid(s: State) {
    forall i :: 0 <= i < |s.messages| ==> IsPlaced(s, i)
  }

  predicate IsPlaced(s: State, i: nat)
    requires i < |s.messages|
  {
    && s.messages[i].conversation < |s.conversations|
    && match s.messages[i].parent
       case None => true
       case Some(p) => p < i && s.messages[p].conversation == s.messages[i].conversation
  }

  predicate FindsConversation(s: State, a: Access, id: GlobalId) {
    id.Pk? && id.pk < |s.conversations| && s.conversations[id.pk].deletedAt.None? && a.seesConversation(id.pk)
  }

  predicate FindsMessage(s: State, a: Access, id: GlobalId) {
    id.Pk? && id.pk < |s.messages| && s.messages[id.pk].deletedAt.None? && a.seesMessage(id.pk)
  }

  predicate IsReadable(readable: nat -> bool, id: Option<GlobalId>) {
    id.None? || (id.value.Pk? && readable(id.value.pk))
  }

  function PkOf(id: Option<GlobalId>): Option<nat> {
    match id
    case Some(Pk(pk)) => Some(pk)
    case _ => None
  }

  function WithMessage(s: State, m: Message, w: World, a: Access): State
    requires m.conversation < |s.conversations|
  {
    s.(messages := s.messages + [LinkedByContent(m, w, a, s.conversations[m.conversation].corpus)])
  }

  /** Who may edit a message at all. */
  predicate MayEdit(s: State, a: Access, user: User, pk: nat)
    requires Valid(s) && pk < |s.messages|
  {
    var m := s.messages[pk];
    && (FindsMessage(s, a, Pk(pk)) || m.creator == user || a.moderates(m.conversation))
    && (a.mayEditMessage(pk) || a.moderates(m.conversation))
  }

  /** What a step does, and what it answers. */
  function Step(s: State, op: Op, w: World, a: Access, now: nat): (State, Response)
    requires Valid(s)
  {
    match op
    case CreateThread(user, title, description, initialMessage, corpusId, documentId) =>
      if corpusId.None? && documentId.None? then (s, NoPlace)
      else if !IsReadable(a.readsCorpus, corpusId) || !IsReadable(a.readsDocument, documentId) then (s, NotPermitted)
      else
        var c := Conversation(title, description, PkOf(corpusId), PkOf(documentId), user, false, None);
        var s' := s.(conversations := s.conversations + [c]);
        (WithMessage(s', FreshMessage(|s.conversations|, None, user, initialMessage), w, a), Created(|s.conversations|))
    case Post(user, id, content) =>
      if !FindsConversation(s, a, id) then (s, NotPermitted)
      else if s.conversations[id.pk].isLocked then (s, IsLocked)
      else (WithMessage(s, FreshMessage(id.pk, None, user, content), w, a), Created(|s.messages|))
    case Reply(user, id, content) =>
      if !FindsMessage(s, a, id) then (s, NotPermitted)
      else
        assert IsPlaced(s, id.pk);
        var c := s.messages[id.pk].conversation;
        if !a.mayReadConversation(c) then (s, NotPermitted)
        else if s.conversations[c].isLocked then (s, IsLocked)
        else (WithMessage(s, FreshMessage(c, Some(id.pk), user, content), w, a), Created(|s.messages|))
    case Update(user, id, content) =>
      if id == Malformed then (s, Failed)
      else if IsBlank(content) then (s, IsEmpty)
      else if id.pk >= |s.messages| || !MayEdit(s, a, user, id.pk) then (s, NotPermitted)
      else
        assert IsPlaced(s, id.pk);
        var m := s.messages[id.pk];
        if s.conversations[m.conversation].isLocked then (s, IsLocked)
        else if m.deletedAt.Some? then (s, IsDeleted)
        else
          var m' := LinkedByContent(Unlinked(m.(content := content)), w, a, s.conversations[m.conversation].corpus);
          (s.(messages := s.messages[id.pk := m']), Updated(w.parse(content).Some?))
    case DeleteConversation(user, id) =>
      if !FindsConversation(s, a, id) || !(a.mayDeleteConversation(id.pk) || a.moderates(id.pk)) then (s, NotPermitted)
      else (WithConversation(s, id.pk, s.conversations[id.pk].(deletedAt := Some(now))), Done)
    case DeleteMessage(user, id) =>
      if !FindsMessage(s, a, id) then (s, NotPermitted)
      else if !(a.mayDeleteMessage(id.pk) || a.moderates(s.messages[id.pk].conversation)) then (s, NotPermitted)
      else (s.(messages := s.messages[id.pk := s.messages[id.pk].(deletedAt := Some(now))]), Done)
    case Lock(c) =>
      if c >= |s.conversations| then (s, NotPermitted)
      else (WithConversation(s, c, s.conversations[c].(isLocked := true)), Done)
    case Unlock(c) =>
      if c >= |s.conversations| then (s, NotPermitted)
      else (WithConversation(s, c, s.conversations[c].(isLocked := false)), Done)
    case RestoreMessage(m) =>
      if m >= |s.messages| then (s, NotPermitted)
      else (s.(messages := s.messages[m := s.messages[m].(deletedAt := None)]), Done)
    case RestoreConversation(c) =>
      if c >= |s.conversations| then (s, NotPermitted)
      else (WithConversation(s, c, s.conversations[c].(deletedAt := None)), Done)
  }

  function WithConversation(s: State, pk: nat, c: Conversation): State
    requires pk < |s.conversations|
  {
    s.(conversations := s.conversations[pk := c])
  }

  /* ---------- The mutations ---------- */

  class Store {
    var conversations: seq<Conversation>
    var messages: seq<Message>
    const world: World

    constructor (world: World)
      ensures this.world == world && Current() == State([], []) && Valid(Current())
    {
      this.world := world;
      conversations, messages := [], [];
    }

    function Current(): State
      reads this
    {
      State(conversations, messages)
    }

    /** `link_message_to_resources` */
    method LinkMessage(pk: nat, mentions: Mentions, access: Access)
      requires pk < |messages| && messages[pk].conversation < |conversations|
      modifies this`messages
      ensures messages == old(messages)[pk := Linked(old(messages)[pk], mentions, world, access,
              conversations[old(messages)[pk].conversation].corpus)]
    {
      var m := messages[pk];
      if mentions.documents != {} {
        var document := access.firstDocument(mentions.documents);
        if document.Some? {
          m := m.(sourceDocument := document);
          messages := messages[pk := m];
        }
      }
      if mentions.annotations != {} {
        if forall id :: id in mentions.annotations ==> world.annotationPk(id).Some? {
          var found := set a | a in access.annotations && NamesAnnotation(world, mentions.annotations, a);
          m := m.(sourceAnnotations := found);
          messages := messages[pk := m];
        }
      }
      if mentions.agents != {} {
        var corpus := conversations[m.conversation].corpus;
        var found := set a | a in access.agents(corpus) && world.agentSlug(a) in mentions.agents;
        m := m.(mentionedAgents := found);
        messages := messages[pk := m];
      }
    }

    /** Create a message and link what it mentions; a failure to read the mentions fails nothing else. */
    method AddMessage(conversation: nat, parent: Option<nat>, user: User, content: string,
                      access: Access)
      returns (pk: nat)
      requires conversation < |conversations|
      modifies this`messages
      ensures Current() == WithMessage(old(Current()), FreshMessage(conversation, parent, user, content), world, access)
      ensures pk == |old(messages)|
    {
      pk := |messages|;
      messages := messages + [FreshMessage(conversation, parent, user, content)];
      var mentions := world.parse(content);
      if mentions.Some? {
        LinkMessage(pk, mentions.value, access);
      }
    }

    method CreateThread(user: User, title: string, description: string, initialMessage: string,
                        corpusId: Option<GlobalId>, documentId: Option<GlobalId>, access: Access)
      returns (response: Response)
      requires Valid(Current())
      modifies this
      ensures (Current(), response) ==
              Step(old(Current()), Op.CreateThread(user, title, description, initialMessage, corpusId, documentId),
                world, access, 0)
    {
      if corpusId.None? && documentId.None? {
        return NoPlace;
      }
      var corpus: Option<nat>, document: Option<nat> := None, None;
      if corpusId.Some? {
        if corpusId.value == Malformed || !access.readsCorpus(corpusId.value.pk) {
          return NotPermitted;
        }
        corpus := Some(corpusId.value.pk);
      }
      if documentId.Some? {
        if documentId.value == Malformed || !access.readsDocument(documentId.value.pk) {
          return NotPermitted;
        }
        document := Some(documentId.value.pk);
      }
      var pk := |conversations|;
      conversations := conversations + [Conversation(title, description, corpus, document, user, false, None)];
      var _ := AddMessage(pk, None, user, initialMessage, access);
      return Created(pk);
    }

    method CreateThreadMessage(user: User, conversationId: GlobalId, content: string,
                               access: Access)
      returns (response: Response)
      requires Valid(Current())
      modifies this
      ensures (Current(), response) == Step(old(Current()), Post(user, conversationId, content), world, access, 0)
    {
      if !FindsConversation(Current(), access, conversationId) {
        return NotPermitted;
      }
      if conversations[conversationId.pk].isLocked {
        return IsLocked;
      }
      var pk := AddMessage(conversationId.pk, None, user, content, access);
      return Created(pk);
    }

    method ReplyToMessage(user: User, parentId: GlobalId, content: string, access: Access) returns (response: Response)
      requires Valid(Current())
      modifies this
      ensures (Current(), response) == Step(old(Current()), Reply(user, parentId, content), world, access, 0)
    {
      if !FindsMessage(Current(), access, parentId) {
        return NotPermitted;
      }
      assert IsPlaced(Current(), parentId.pk);
      var conversation := messages[parentId.pk].conversation;
      if !access.mayReadConversation(conversation) {
        return NotPermitted;
      }
      if conversations[conversation].isLocked {
        return IsLocked;
      }
      var pk := AddMessage(conversation, Some(parentId.pk), user, content, access);
      return Created(pk);
    }

    method UpdateMessage(user: User, messageId: GlobalId, content: string, access: Access) returns (response: Response)
      requires Valid(Current())
      modifies this
      ensures (Current(), response) == Step(old(Current()), Update(user, messageId, content), world, access, 0)
    {
      if messageId == Malformed {
        return Failed;
      }
      var pk := messageId.pk;
      if IsBlank(content) {
        return IsEmpty;
      }
      if pk >= |messages| {
        return NotPermitted;
      }
      assert IsPlaced(Current(), pk);
      if !FindsMessage(Current(), access, messageId) {
        if !(messages[pk].creator == user || access.moderates(messages[pk].conversation)) {
          return NotPermitted;
        }
      }
      if !access.mayEditMessage(pk) && !access.moderates(messages[pk].conversation) {
        return NotPermitted;
      }
      if conversations[messages[pk].conversation].isLocked {
        return IsLocked;
      }
      if messages[pk].deletedAt.Some? {
        return IsDeleted;
      }
      var mentions := world.parse(content);
      messages := messages[pk := messages[pk].(content := content, sourceDocument := None)];
      messages := messages[pk := messages[pk].(sourceAnnotations := {})];
      messages := messages[pk := messages[pk].(mentionedAgents := {})];
      ghost var cleared := Unlinked(old(messages)[pk].(content := content));
      assert messages == old(messages)[pk := cleared];
      if mentions.Some? {
        LinkMessage(pk, mentions.value, access);
      }
      assert messages == old(messages)[pk := LinkedByContent(cleared, world, access,
        conversations[cleared.conversation].corpus)];
      return Updated(mentions.Some?);
    }

    method DeleteConversation(user: User, conversationId: GlobalId, access: Access,
                              now: nat)
      returns (response: Response)
      requires Valid(Current())
      modifies this`conversations
      ensures (Current(), response) ==
              Step(old(Current()), Op.DeleteConversation(user, conversationId), world, access, now)
    {
      if !FindsConversation(Current(), access, conversationId) {
        return NotPermitted;
      }
      var pk := conversationId.pk;
      if !access.mayDeleteConversation(pk) && !access.moderates(pk) {
        return NotPermitted;
      }
      conversations := conversations[pk := conversations[pk].(deletedAt := Some(now))];
      return Done;
    }

    method DeleteMessage(user: User, messageId: GlobalId, access: Access, now: nat) returns (response: Response)
      requires Valid(Current())
      modifies this`messages
      ensures (Current(), response) == Step(old(Current()), Op.DeleteMessage(user, messageId), world, access, now)
    {
      if !FindsMessage(Current(), access, messageId) {
        return NotPermitted;
      }
      var pk := messageId.pk;
      if !access.mayDeleteMessage(pk) && !access.moderates(messages[pk].conversation) {
        return NotPermitted;
      }
      messages := messages[pk := messages[pk].(deletedAt := Some(now))];
      return Done;
    }
  }
}
