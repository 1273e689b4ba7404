/**
 What variables and directives amount to: writing out the value of every variable, and putting a
 hole in the place of everything that `@skip` or `@include` leaves out, anywhere in an operation and
 its fragments, changes neither the policy's decision nor the calls.
 */
module ClosedOperations {
  import opened Wrappers
  import opened GraphQL
  import opened Fragments
  import opened AutomationCredentials
  import opened Automation
  import opened Footprint
  import opened OperationSafety

  /* ---------- Arguments ---------- */

  /**
   A declared parameter gets the literal or the variable's value that it is given, else its default,
   else nothing; what is not declared gets nothing.
   */
  lemma ArgumentsExactly(field: FieldDefinition, node: FieldNode, variables: map<string, Value>, p: string)
    ensures var r := ArgumentValues(field, node, variables);
            if p !in field.parameters then p !in r
            else if p in node.arguments && node.arguments[p].Literal? then
              p in r && r[p] == node.arguments[p].value
            else if p in node.arguments && node.arguments[p].name in variables then
              p in r && r[p] == variables[node.arguments[p].name]
            else if p in field.defaults then p in r && r[p] == field.defaults[p]
            else p !in r
  {
  }

  /* ---------- Closing ---------- */

  /** The test is the constant true, or a variable that is true. */
  predicate IsTrue(test: Test, variables: map<string, Value>) {
    || test == Constantly(true)
    || (test.FromVariable? && test.name in variables && variables[test.name] == Flag(true))
  }

  /** Skipped, or not included. */
  predicate IsLeftOut(directives: Directives, variables: map<string, Value>) {
    || IsTrue(directives.skipIf, variables)
    || (directives.includeIf != Absent && !IsTrue(directives.includeIf, variables))
  }

  lemma LeftOutExactly(directives: Directives, variables: map<string, Value>)
    ensures Included(directives, variables) <==> !IsLeftOut(directives, variables)
  {
  }

  function DirectivesOf(selection: Selection): Directives {
    match selection
    case Field(node) => node.directives
    case Inline(_, directives, _) => directives
    case Spread(_, directives) => directives
  }

  /** `__typename @skip(if: true)` */
  const HOLE := Field(FieldNode(None, "__typename", map[], Directives(Constantly(true), Absent), []))

  function ClosedArguments(arguments: map<string, Argument>, variables: map<string, Value>): map<string, Argument> {
    map p | p in arguments && (arguments[p].Variable? ==> arguments[p].name in variables) ::
      if arguments[p].Variable? then Literal(variables[arguments[p].name]) else arguments[p]
  }

  function Closed(selections: seq<Selection>, variables: map<string, Value>): seq<Selection> {
    if selections == [] then [] else [ClosedOne(selections[0], variables)] + Closed(selections[1..], variables)
  }

  function ClosedOne(selection: Selection, variables: map<string, Value>): Selection {
    if IsLeftOut(DirectivesOf(selection), variables) then HOLE
    else match selection
      case Field(node) => Field(ClosedNode(node, variables))
      case Inline(on, _, body) => Inline(on, PLAIN, Closed(body, variables))
      case Spread(name, _) => Spread(name, PLAIN)
  }

  function ClosedNode(node: FieldNode, variables: map<string, Value>): FieldNode {
    node.(arguments := ClosedArguments(node.arguments, variables), directives := PLAIN,
          selections := Closed(node.selections, variables))
  }

  function ClosedFragment(d: Fragment, variables: map<string, Value>): Fragment {
    d.(selections := Closed(d.selections, variables))
  }

  /** The context of the closed operation; `other` are variables that no one asks for any more. */
  function ClosedContext(c: Context, other: map<string, Value>): Context {
    Context(c.schema, map f | f in c.fragments :: ClosedFragment(c.fragments[f], c.variables), other)
  }

  lemma ClosedArgumentsAreGiven(field: FieldDefinition, node: FieldNode, variables: map<string, Value>,
                                other: map<string, Value>)
    ensures ArgumentValues(field, ClosedNode(node, variables), other) == ArgumentValues(field, node, variables)
  {
    var closed := ClosedNode(node, variables);
    forall p ensures Given(closed, p, other) == Given(node, p, variables) {
    }
  }

  lemma ClosedTail(selections: seq<Selection>, variables: map<string, Value>)
    requires selections != []
    ensures Closed(selections, variables) != []
    ensures Closed(selections, variables)[0] == ClosedOne(selections[0], variables)
    ensures Closed(selections, variables)[1..] == Closed(selections[1..], variables)
  {
  }

  /* ---------- Collection ---------- */

  function ClosedNodes(fields: seq<FieldNode>, variables: map<string, Value>): (r: seq<FieldNode>)
    ensures |r| == |fields| && forall i :: 0 <= i < |r| ==> r[i] == ClosedNode(fields[i], variables)
  {
    seq(|fields|, i requires 0 <= i < |fields| => ClosedNode(fields[i], variables))
  }

  lemma ClosedNodesConcat(a: seq<FieldNode>, b: seq<FieldNode>, variables: map<string, Value>)
    ensures ClosedNodes(a + b, variables) == ClosedNodes(a, variables) + ClosedNodes(b, variables)
  {
  }

  lemma {:induction false} CollectClosed(c: Context, other: map<string, Value>, parent: string,
                                        selections: seq<Selection>, visited: set<string>)
    ensures var (fields, after) := Collect(c, parent, selections, visited);
            Collect(ClosedContext(c, other), parent, Closed(selections, c.variables), visited) ==
            (ClosedNodes(fields, c.variables), after)
    decreases c.fragments.Keys - visited, selections
  {
    var c' := ClosedContext(c, other);
    if selections != [] {
      var first := CollectOne(c, parent, selections[0], visited);
      CollectOneClosed(c, other, parent, selections[0], visited);
      CollectClosed(c, other, parent, selections[1..], first.1);
      ClosedTail(selections, c.variables);
      ClosedNodesConcat(first.0, Collect(c, parent, selections[1..], first.1).0, c.variables);
    }
  }

  lemma {:induction false} CollectOneClosed(c: Context, other: map<string, Value>, parent: string,
                                        selection: Selection, visited: set<string>)
    ensures var (fields, after) := CollectOne(c, parent, selection, visited);
            CollectOne(ClosedContext(c, other), parent, ClosedOne(selection, c.variables), visited) ==
            (ClosedNodes(fields, c.variables), after)
    decreases c.fragments.Keys - visited, selection
  {
    var c' := ClosedContext(c, other);
    if !IsLeftOut(DirectivesOf(selection), c.variables) {
      match selection
      case Field(node) =>
        assert ClosedNodes([node], c.variables) == [ClosedNode(node, c.variables)];
      case Inline(_, _, body) => CollectClosed(c, other, parent, body, visited);
      case Spread(name, _) =>
        if name !in visited && Applies(c, parent, name) {
          CollectClosed(c, other, parent, c.fragments[name].selections, visited + {name});
        }
    }
  }

  /* ---------- Groups ---------- */

  function ClosedGroups(groups: seq<seq<FieldNode>>, variables: map<string, Value>): (r: seq<seq<FieldNode>>)
    ensures |r| == |groups| && forall i :: 0 <= i < |r| ==> r[i] == ClosedNodes(groups[i], variables)
  {
    seq(|groups|, i requires 0 <= i < |groups| => ClosedNodes(groups[i], variables))
  }

  lemma {:induction false} KeysClosed(fields: seq<FieldNode>, key: string, variables: map<string, Value>)
    ensures WithKey(ClosedNodes(fields, variables), key) == ClosedNodes(WithKey(fields, key), variables)
    ensures WithoutKey(ClosedNodes(fields, variables), key) == ClosedNodes(WithoutKey(fields, key), variables)
  {
    if fields != [] {
      KeysClosed(fields[1..], key, variables);
      assert ClosedNodes(fields, variables)[1..] == ClosedNodes(fields[1..], variables);
      assert ClosedNodes(fields, variables)[0].Key() == fields[0].Key();
      ClosedNodesConcat([fields[0]], WithKey(fields[1..], key), variables);
      ClosedNodesConcat([fields[0]], WithoutKey(fields[1..], key), variables);
      assert ClosedNodes([fields[0]], variables) == [ClosedNode(fields[0], variables)];
    }
  }

  lemma GroupsStep(fields: seq<FieldNode>)
    requires fields != []
    ensures Groups(fields) ==
            [WithKey(fields, fields[0].Key())] + Groups(WithoutKey(fields[1..], fields[0].Key()))
  {
  }

  lemma ClosedGroupsCons(first: seq<FieldNode>, rest: seq<seq<FieldNode>>, variables: map<string, Value>)
    ensures ClosedGroups([first] + rest, variables) == [ClosedNodes(first, variables)] + ClosedGroups(rest, variables)
  {
  }

  lemma FirstGroupClosed(fields: seq<FieldNode>, rest: seq<FieldNode>, variables: map<string, Value>)
    requires fields != [] && rest == WithoutKey(fields[1..], fields[0].Key())
    ensures Groups(ClosedNodes(fields, variables)) ==
            [ClosedNodes(WithKey(fields, fields[0].Key()), variables)] + Groups(ClosedNodes(rest, variables))
  {
    var closed, key := ClosedNodes(fields, variables), fields[0].Key();
    KeysClosed(fields, key, variables);
    KeysClosed(fields[1..], key, variables);
    assert closed[1..] == ClosedNodes(fields[1..], variables) && closed[0].Key() == key;
    GroupsStep(closed);
  }

  lemma {:induction false} GroupsClosed(fields: seq<FieldNode>, variables: map<string, Value>)
    ensures Groups(ClosedNodes(fields, variables)) == ClosedGroups(Groups(fields), variables)
    decreases |fields|
  {
    if fields == [] {
      assert ClosedNodes(fields, variables) == [];
      assert Groups([]) == [];
    } else {
      var first, rest := WithKey(fields, fields[0].Key()), WithoutKey(fields[1..], fields[0].Key());
      FirstGroupClosed(fields, rest, variables);
      GroupsClosed(rest, variables);
      ClosedGroupsCons(first, Groups(rest), variables);
      GroupsStep(fields);
    }
  }

  lemma {:induction false} ClosedConcat(a: seq<Selection>, b: seq<Selection>, variables: map<string, Value>)
    ensures Closed(a + b, variables) == Closed(a, variables) + Closed(b, variables)
  {
    if a == [] {
      assert a + b == b;
    } else {
      assert (a + b)[1..] == a[1..] + b;
      ClosedConcat(a[1..], b, variables);
    }
  }

  lemma {:induction false} MergedClosed(group: seq<FieldNode>, variables: map<string, Value>)
    ensures Merged(ClosedNodes(group, variables)) == Closed(Merged(group), variables)
  {
    if group != [] {
      MergedClosed(group[1..], variables);
      assert ClosedNodes(group, variables)[1..] == ClosedNodes(group[1..], variables);
      ClosedConcat(group[0].selections, Merged(group[1..]), variables);
    }
  }

  /* ---------- Closing keeps fragments acyclic ---------- */

  lemma {:induction false} BoundClosed(rank: map<string, nat>, selections: seq<Selection>,
                                        variables: map<string, Value>)
    ensures Bound(rank, Closed(selections, variables)) <= Bound(rank, selections)
    decreases selections
  {
    if selections != [] {
      BoundOneClosed(rank, selections[0], variables);
      BoundClosed(rank, selections[1..], variables);
      ClosedTail(selections, variables);
    }
  }

  lemma {:induction false} BoundOneClosed(rank: map<string, nat>, selection: Selection, variables: map<string, Value>)
    ensures BoundOne(rank, ClosedOne(selection, variables)) <= BoundOne(rank, selection)
    decreases selection
  {
    match selection
    case Field(node) => BoundClosed(rank, node.selections, variables);
    case Inline(_, _, body) => BoundClosed(rank, body, variables);
    case Spread(_, _) =>
  }

  lemma ClosedIsAcyclic(c: Context, other: map<string, Value>)
    requires Acyclic(c.fragments)
    ensures Acyclic(ClosedContext(c, other).fragments)
  {
    var rank := Rank(c.fragments);
    forall f | f in c.fragments {
      BoundClosed(rank, c.fragments[f].selections, c.variables);
    }
    assert Ranked(ClosedContext(c, other).fragments, rank);
  }

  /* ---------- The decision ---------- */

  predicate AllChecked(g: Gate, user: User, c: Context, parent: string, groups: seq<seq<FieldNode>>, root: bool)
    requires Acyclic(c.fragments)
  {
    forall i :: 0 <= i < |groups| ==> groups[i] != [] && CheckGroup(g, user, c, parent, groups[i], root)
  }

  lemma CheckIsAllChecked(g: Gate, user: User, c: Context, parent: string, selections: seq<Selection>, root: bool)
    requires Acyclic(c.fragments)
    ensures Check(g, user, c, parent, selections, root) <==>
            AllChecked(g, user, c, parent, Groups(Fields(c, parent, selections)), root)
  {
    var groups := Groups(Fields(c, parent, selections));
    if Check(g, user, c, parent, selections, root) {
      forall i | 0 <= i < |groups| ensures groups[i] != [] && CheckGroup(g, user, c, parent, groups[i], root) {
        assert groups[i] in groups;
      }
    }
    if AllChecked(g, user, c, parent, groups, root) {
      forall group: seq<FieldNode> | group in groups
        ensures group != [] && CheckGroup(g, user, c, parent, group, root)
      {
        var i :| 0 <= i < |groups| && groups[i] == group;
      }
    }
  }

  lemma ClosedGroupsOf(c: Context, other: map<string, Value>, parent: string, selections: seq<Selection>)
    ensures Groups(Fields(ClosedContext(c, other), parent, Closed(selections, c.variables))) ==
            ClosedGroups(Groups(Fields(c, parent, selections)), c.variables)
  {
    CollectClosed(c, other, parent, selections, {});
    GroupsClosed(Fields(c, parent, selections), c.variables);
  }

  /** Closing leaves the decision on a selection set unchanged. */
  lemma {:induction false} CheckClosed(g: Gate, user: User, c: Context, other: map<string, Value>, parent: string,
                                        selections: seq<Selection>, root: bool)
    requires Acyclic(c.fragments) && Acyclic(ClosedContext(c, other).fragments)
    ensures Check(g, user, ClosedContext(c, other), parent, Closed(selections, c.variables), root) ==
            Check(g, user, c, parent, selections, root)
    decreases Height(c, selections), 2
  {
    var groups := Groups(Fields(c, parent, selections));
    forall i | 0 <= i < |groups| ensures groups[i] != [] && Height(c, Merged(groups[i])) < Height(c, selections) {
      assert groups[i] in groups;
      GroupIsLower(c, parent, selections, groups[i]);
    }
    GroupsCheckedClosed(g, user, c, other, parent, groups, root, Height(c, selections));
    ClosedGroupsOf(c, other, parent, selections);
    CheckIsAllChecked(g, user, c, parent, selections, root);
    CheckIsAllChecked(g, user, ClosedContext(c, other), parent, Closed(selections, c.variables), root);
  }

  lemma {:induction false} GroupsCheckedClosed(g: Gate, user: User, c: Context, other: map<string, Value>,
                                        parent: string, groups: seq<seq<FieldNode>>, root: bool, height: nat)
    requires Acyclic(c.fragments) && Acyclic(ClosedContext(c, other).fragments)
    requires forall i :: 0 <= i < |groups| ==> groups[i] != [] && Height(c, Merged(groups[i])) < height
    ensures AllChecked(g, user, ClosedContext(c, other), parent, ClosedGroups(groups, c.variables), root) <==>
            AllChecked(g, user, c, parent, groups, root)
    decreases height, 1
  {
    forall i | 0 <= i < |groups|
      ensures ClosedGroups(groups, c.variables)[i] != []
      ensures CheckGroup(g, user, ClosedContext(c, other), parent, ClosedGroups(groups, c.variables)[i], root) ==
              CheckGroup(g, user, c, parent, groups[i], root)
    {
      CheckGroupClosed(g, user, c, other, parent, groups[i], root);
    }
  }

  lemma {:induction false} CheckGroupClosed(g: Gate, user: User, c: Context, other: map<string, Value>,
                                        parent: string, group: seq<FieldNode>, root: bool)
    requires Acyclic(c.fragments) && Acyclic(ClosedContext(c, other).fragments) && group != []
    ensures CheckGroup(g, user, ClosedContext(c, other), parent, ClosedNodes(group, c.variables), root) ==
            CheckGroup(g, user, c, parent, group, root)
    decreases Height(c, Merged(group)), 3
  {
    var node := group[0];
    MergedClosed(group, c.variables);
    SelectedClosed(group, c.variables);
    if node.name != "__typename" && node.name in c.schema.FieldsOf(parent) {
      var field := c.schema.FieldsOf(parent)[node.name];
      ClosedArgumentsAreGiven(field, node, c.variables, other);
      CheckClosed(g, user, c, other, field.typeName, Merged(group), false);
    }
  }

  predicate IsSelected(group: seq<FieldNode>) {
    exists selected :: selected in group && selected.selections != []
  }

  lemma SelectedClosed(group: seq<FieldNode>, variables: map<string, Value>)
    ensures IsSelected(ClosedNodes(group, variables)) <==> IsSelected(group)
  {
    var closed := ClosedNodes(group, variables);
    if selected :| selected in group && selected.selections != [] {
      var i :| 0 <= i < |group| && group[i] == selected;
      ClosedTail(selected.selections, variables);
      assert closed[i] in closed && closed[i].selections != [];
    }
    if selected :| selected in closed && selected.selections != [] {
      var i :| 0 <= i < |closed| && closed[i] == selected;
      assert Closed([], variables) == [];
      assert group[i] in group && group[i].selections != [];
    }
  }

  /* ---------- The calls ---------- */

  /** Closing leaves the naive calls unchanged. */
  lemma {:induction false} CallsClosed(c: Context, other: map<string, Value>, parent: string,
                                        selections: seq<Selection>, root: bool)
    requires Acyclic(c.fragments) && Acyclic(ClosedContext(c, other).fragments)
    ensures Calls(ClosedContext(c, other), parent, Closed(selections, c.variables), root) ==
            Calls(c, parent, selections, root)
    decreases Bound(Rank(c.fragments), selections), selections
  {
    if selections != [] {
      CallsOneClosed(c, other, parent, selections[0], root);
      CallsClosed(c, other, parent, selections[1..], root);
      ClosedTail(selections, c.variables);
    }
  }

  lemma {:induction false} CallsOneClosed(c: Context, other: map<string, Value>, parent: string,
                                        selection: Selection, root: bool)
    requires Acyclic(c.fragments) && Acyclic(ClosedContext(c, other).fragments)
    ensures CallsOne(ClosedContext(c, other), parent, ClosedOne(selection, c.variables), root) ==
            CallsOne(c, parent, selection, root)
    decreases BoundOne(Rank(c.fragments), selection), selection
  {
    LeftOutExactly(DirectivesOf(selection), c.variables);
    if IsLeftOut(DirectivesOf(selection), c.variables) {
      assert CallsOne(c, parent, selection, root) == {};
    } else {
      match selection
      case Field(node) =>
        forall t { CallsClosed(c, other, t, node.selections, false); }
        CallsFieldClosed(c, other, parent, node, root);
      case Inline(_, _, body) => CallsClosed(c, other, parent, body, root);
      case Spread(name, _) =>
        if Applies(c, parent, name) {
          CallsClosed(c, other, parent, c.fragments[name].selections, root);
        }
    }
  }

  lemma CallsFieldClosed(c: Context, other: map<string, Value>, parent: string, node: FieldNode, root: bool)
    requires Acyclic(c.fragments) && Acyclic(ClosedContext(c, other).fragments)
    requires forall t :: Calls(ClosedContext(c, other), t, Closed(node.selections, c.variables), false) ==
                         Calls(c, t, node.selections, false)
    ensures CallsField(ClosedContext(c, other), parent, ClosedNode(node, c.variables), root) ==
            CallsField(c, parent, node, root)
  {
    if node.name != "__typename" && c.schema.Lookup(parent, node.name).Some? {
      var field := c.schema.Lookup(parent, node.name).value;
      ClosedArgumentsAreGiven(field, node, c.variables, other);
      var types := c.schema.RuntimeTypes(field.typeName);
      var closed := ClosedNode(node, c.variables);
      assert forall t, call :: t in types ==>
        (call in Calls(ClosedContext(c, other), t, closed.selections, false) <==>
         call in Calls(c, t, node.selections, false));
    }
  }

  /* ---------- Whole operations ---------- */

  function ClosedFragments(definitions: seq<Fragment>, variables: map<string, Value>): (r: seq<Fragment>)
    ensures |r| == |definitions| && forall i :: 0 <= i < |r| ==> r[i] == ClosedFragment(definitions[i], variables)
  {
    seq(|definitions|, i requires 0 <= i < |definitions| => ClosedFragment(definitions[i], variables))
  }

  function ClosedDocument(document: Document, variables: map<string, Value>): Document {
    document.(fragments := ClosedFragments(document.fragments, variables))
  }

  function ClosedOperation(operation: Operation, variables: map<string, Value>): Operation {
    operation.(selections := Closed(operation.selections, variables))
  }

  lemma {:induction false} FragmentMapClosed(definitions: seq<Fragment>, variables: map<string, Value>)
    ensures FragmentMap(ClosedFragments(definitions, variables)) ==
            map f | f in FragmentMap(definitions) :: ClosedFragment(FragmentMap(definitions)[f], variables)
  {
    if definitions != [] {
      var n := |definitions| - 1;
      FragmentMapClosed(definitions[..n], variables);
      assert ClosedFragments(definitions, variables)[..n] == ClosedFragments(definitions[..n], variables);
    }
  }

  lemma ClosedKeepsFragmentVariables(c: Context, other: map<string, Value>)
    ensures HasFragmentVariables(ClosedContext(c, other).fragments) == HasFragmentVariables(c.fragments)
  {
    var closed := ClosedContext(c, other).fragments;
    if f :| f in c.fragments && c.fragments[f].hasVariables {
      assert f in closed && closed[f].hasVariables;
    }
  }

  /**
   Whatever the variables are: the operation in which every variable argument is a literal of its
   value, and every selection that a directive leaves out is a hole, is decided alike and makes the
   same calls, with any other variables.
   */
  lemma OperationClosed(g: Gate, user: User, schema: Schema, document: Document, operation: Operation,
                        variables: map<string, Value>, other: map<string, Value>)
    requires Acyclic(FragmentMap(document.fragments))
    ensures Acyclic(FragmentMap(ClosedDocument(document, variables).fragments))
    ensures CheckOperation(g, user, schema, ClosedDocument(document, variables), ClosedOperation(operation, variables),
                           other) ==
            CheckOperation(g, user, schema, document, operation, variables)
    ensures OperationCalls(schema, ClosedDocument(document, variables), ClosedOperation(operation, variables), other) ==
            OperationCalls(schema, document, operation, variables)
  {
    var c := ContextOf(schema, document, variables);
    var c' := ContextOf(schema, ClosedDocument(document, variables), other);
    FragmentMapClosed(document.fragments, variables);
    assert c' == ClosedContext(c, other);
    ClosedIsAcyclic(c, other);
    ClosedKeepsFragmentVariables(c, other);
    if operation.kind in schema.roots {
      CheckClosed(g, user, c, other, schema.roots[operation.kind], operation.selections, true);
      CallsClosed(c, other, schema.roots[operation.kind], operation.selections, true);
    }
  }

  /** So operations that differ only in how values are given are decided alike and make the same calls. */
  lemma SameWhenClosed(g: Gate, user: User, schema: Schema, document: Document, operation: Operation,
                       variables: map<string, Value>, document': Document, operation': Operation,
                       variables': map<string, Value>)
    requires Acyclic(FragmentMap(document.fragments)) && Acyclic(FragmentMap(document'.fragments))
    requires ClosedDocument(document, variables) == ClosedDocument(document', variables')
    requires ClosedOperation(operation, variables) == ClosedOperation(operation', variables')
    ensures CheckOperation(g, user, schema, document, operation, variables) ==
            CheckOperation(g, user, schema, document', operation', variables')
    ensures OperationCalls(schema, document, operation, variables) ==
            OperationCalls(schema, document', operation', variables')
  {
    OperationClosed(g, user, schema, document, operation, variables, map[]);
    OperationClosed(g, user, schema, document', operation', variables', map[]);
  }
}
