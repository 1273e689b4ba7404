/**
 What the policy's decision does not depend on: how an operation is spelled. And
 how it moves when the caller's authority grows or is bound to some corpuses.
 */
module Invariance {
  import opened Wrappers
  import opened GraphQL
  import opened Fragments
  import opened AutomationCredentials
  import opened Automation
  import opened Footprint

  /* ---------- Inlining, re-aliasing and reordering ---------- */

  /** At every depth: replace each alias by `rename`, and each selection set by a list with the same members. */
  datatype Rewriting = Rewriting(rename: FieldNode -> Option<string>, shuffle: seq<Selection> -> seq<Selection>)

  ghost predicate KeepsMembers(w: Rewriting) {
    forall s: seq<Selection>, x :: x in w.shuffle(s) <==> x in s
  }

  /** Inline every fragment, rename every field and shuffle every selection set, all the way down. */
  ghost function Rewrite(c: Context, w: Rewriting, selections: seq<Selection>): seq<Selection>
    requires Acyclic(c.fragments)
    decreases Bound(Rank(c.fragments), selections), selections, 1
  {
    w.shuffle(RewriteEach(c, w, selections))
  }

  ghost function RewriteEach(c: Context, w: Rewriting, selections: seq<Selection>): seq<Selection>
    requires Acyclic(c.fragments)
    decreases Bound(Rank(c.fragments), selections), selections, 0
  {
    if selections == [] then [] else [RewriteOne(c, w, selections[0])] + RewriteEach(c, w, selections[1..])
  }

  ghost function RewriteOne(c: Context, w: Rewriting, selection: Selection): Selection
    requires Acyclic(c.fragments)
    decreases BoundOne(Rank(c.fragments), selection), selection
  {
    match selection
    case Field(node) => Field(node.(alias := w.rename(node), selections := Rewrite(c, w, node.selections)))
    case Inline(on, directives, body) => Inline(on, directives, Rewrite(c, w, body))
    case Spread(name, directives) =>
      if name !in c.fragments then selection
      else Inline(Some(c.fragments[name].on), directives, Rewrite(c, w, c.fragments[name].selections))
  }

  lemma {:induction false} CallsByMember(c: Context, parent: string, selections: seq<Selection>, root: bool, call: Call)
    requires Acyclic(c.fragments)
    ensures call in Calls(c, parent, selections, root) <==>
            exists s :: s in selections && call in CallsOne(c, parent, s, root)
  {
    if selections != [] {
      CallsByMember(c, parent, selections[1..], root, call);
      assert selections == [selections[0]] + selections[1..];
      if call in CallsOne(c, parent, selections[0], root) {
        assert selections[0] in selections;
      }
    }
  }

  /** Only the members of a selection set matter, not their order or number. */
  lemma CallsOfSameMembers(c: Context, parent: string, a: seq<Selection>, b: seq<Selection>, root: bool)
    requires Acyclic(c.fragments)
    requires forall s :: s in a <==> s in b
    ensures Calls(c, parent, a, root) == Calls(c, parent, b, root)
  {
    forall call: Call ensures call in Calls(c, parent, a, root) <==> call in Calls(c, parent, b, root) {
      CallsByMember(c, parent, a, root, call);
      CallsByMember(c, parent, b, root, call);
    }
  }

  lemma {:induction false} RewriteKeepsCalls(c: Context, w: Rewriting, parent: string, selections: seq<Selection>,
                                        root: bool)
    requires Acyclic(c.fragments) && KeepsMembers(w)
    ensures Calls(c, parent, Rewrite(c, w, selections), root) == Calls(c, parent, selections, root)
    decreases Bound(Rank(c.fragments), selections), selections, 1
  {
    RewriteEachKeepsCalls(c, w, parent, selections, root);
    CallsOfSameMembers(c, parent, Rewrite(c, w, selections), RewriteEach(c, w, selections), root);
  }

  lemma {:induction false} RewriteEachKeepsCalls(c: Context, w: Rewriting, parent: string,
                                        selections: seq<Selection>, root: bool)
    requires Acyclic(c.fragments) && KeepsMembers(w)
    ensures Calls(c, parent, RewriteEach(c, w, selections), root) == Calls(c, parent, selections, root)
    decreases Bound(Rank(c.fragments), selections), selections, 0
  {
    if selections != [] {
      RewriteOneKeepsCalls(c, w, parent, selections[0], root);
      RewriteEachKeepsCalls(c, w, parent, selections[1..], root);
      assert RewriteEach(c, w, selections)[1..] == RewriteEach(c, w, selections[1..]);
    }
  }

  lemma {:induction false} RewriteOneKeepsCalls(c: Context, w: Rewriting, parent: string, selection: Selection,
                                        root: bool)
    requires Acyclic(c.fragments) && KeepsMembers(w)
    ensures CallsOne(c, parent, RewriteOne(c, w, selection), root) == CallsOne(c, parent, selection, root)
    decreases BoundOne(Rank(c.fragments), selection), selection
  {
    match selection
    case Field(node) =>
      forall t { RewriteKeepsCalls(c, w, t, node.selections, false); }
      RenameKeepsCalls(c, parent, node, w.rename(node), Rewrite(c, w, node.selections), root);
    case Inline(_, _, body) => RewriteKeepsCalls(c, w, parent, body, root);
    case Spread(name, _) =>
      if name in c.fragments {
        RewriteKeepsCalls(c, w, parent, c.fragments[name].selections, root);
      }
  }

  lemma RenameKeepsCalls(c: Context, parent: string, node: FieldNode, alias: Option<string>,
                         selections: seq<Selection>, root: bool)
    requires Acyclic(c.fragments)
    requires forall t :: Calls(c, t, selections, false) == Calls(c, t, node.selections, false)
    ensures CallsField(c, parent, node.(alias := alias, selections := selections), root) ==
            CallsField(c, parent, node, root)
  {
    var node' := node.(alias := alias, selections := selections);
    if c.schema.Lookup(parent, node.name).Some? {
      assert CallOf(c, parent, node', root) == CallOf(c, parent, node, root) by {
        assert forall p :: Given(node', p, c.variables) == Given(node, p, c.variables);
      }
      var types := c.schema.RuntimeTypes(c.schema.Lookup(parent, node.name).value.typeName);
      assert forall t, call :: t in types ==>
        (call in Calls(c, t, node'.selections, false) <==> call in Calls(c, t, node.selections, false));
    }
  }

  /** Inlining fragments, re-aliasing fields and reordering selections, anywhere, leaves the decision unchanged. */
  lemma DecisionIgnoresSpelling(g: Gate, user: User, c: Context, w: Rewriting, parent: string,
                                selections: seq<Selection>, root: bool)
    requires Acyclic(c.fragments) && KeepsMembers(w)
    requires ConcreteEdges(g, c.schema) && ReservedNames(c.schema) && c.schema.IsObject(parent)
    requires Valid(c, parent, selections) && Valid(c, parent, Rewrite(c, w, selections))
    ensures Check(g, user, c, parent, Rewrite(c, w, selections), root) == Check(g, user, c, parent, selections, root)
  {
    RewriteKeepsCalls(c, w, parent, selections, root);
    CheckDecides(g, user, c, parent, selections, root);
    CheckDecides(g, user, c, parent, Rewrite(c, w, selections), root);
  }

  /* ---------- Authority ---------- */

  lemma StrongerScope(decode: RelayDecoder, weaker: User, stronger: User, scope: Scope, corpusId: Value)
    requires AtLeast(stronger, weaker)
    ensures RequireScope(decode, weaker, scope, corpusId) ==> RequireScope(decode, stronger, scope, corpusId)
  {
  }

  lemma StrongerRoot(g: Gate, weaker: User, stronger: User, parent: string, name: string, arguments: map<string, Value>)
    requires AtLeast(stronger, weaker)
    requires RootAllowed(g, weaker, parent, name, arguments)
    ensures RootAllowed(g, stronger, parent, name, arguments)
  {
    forall scope, corpusId | RequireScope(g.decode, weaker, scope, corpusId)
      ensures RequireScope(g.decode, stronger, scope, corpusId)
    {
      StrongerScope(g.decode, weaker, stronger, scope, corpusId);
    }
  }

  /** More scopes, more corpuses or a higher role never turn a permit into a denial; no validity is assumed. */
  lemma {:induction false} DecisionIsMonotone(g: Gate, weaker: User, stronger: User, c: Context, parent: string,
                                        selections: seq<Selection>, root: bool)
    requires Acyclic(c.fragments)
    requires AtLeast(stronger, weaker)
    requires Check(g, weaker, c, parent, selections, root)
    ensures Check(g, stronger, c, parent, selections, root)
    decreases Height(c, selections)
  {
    forall group: seq<FieldNode> | group in Groups(Fields(c, parent, selections))
      ensures CheckGroup(g, stronger, c, parent, group, root)
    {
      GroupIsLower(c, parent, selections, group);
      var node := group[0];
      assert CheckGroup(g, weaker, c, parent, group, root);
      if node.name != "__typename" {
        var field := c.schema.FieldsOf(parent)[node.name];
        if root {
          StrongerRoot(g, weaker, stronger, parent, node.name, ArgumentValues(field, node, c.variables));
        }
        if exists selected :: selected in group && selected.selections != [] {
          DecisionIsMonotone(g, weaker, stronger, c, field.typeName, Merged(group), false);
        }
      }
    }
  }

  /** A caller bound to some corpuses is only ever permitted root fields whose corpus argument names one of them. */
  lemma BoundCallerIsConfined(g: Gate, user: User, schema: Schema, call: Call)
    requires user.credential.Some? && user.credential.value.corpusIds.Some?
    requires call.root && Permitted(g, user, schema, call)
    ensures call.parent in g.tables.operations && call.name in g.tables.operations[call.parent]
    ensures g.tables.operations[call.parent][call.name].corpusArgument.Some?
    ensures var id := CorpusPk(GetArgument(call.arguments,
            g.tables.operations[call.parent][call.name].corpusArgument.value), g.decode);
            id.Some? && id.value in user.credential.value.corpusIds.value
    ensures call.name != "installAuthorityPack"
  {
  }
}
