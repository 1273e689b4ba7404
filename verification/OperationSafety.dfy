/**
 The policy against execution: an accepted operation cannot make any resolver
 implementation see a call that is not permitted, and a denied one could.
 */
module OperationSafety {
  import opened Wrappers
  import opened GraphQL
  import opened Fragments
  import opened AutomationCredentials
  import opened Automation
  import opened Footprint
  import opened Executor

  /* ---------- Resolvers for one path ---------- */

  /** One step down: the call made, and the runtime type of the object it returns. */
  datatype Descent = Descent(call: Call, typeName: string)

  /** As many lists of one item as the field's type has levels. */
  function Wrapped(levels: nat, value: Resolved): Resolved {
    if levels == 0 then value else Many([Wrapped(levels - 1, value)])
  }

  /** The object at depth `source` answers the call of the path with one object, and every other call with null. */
  function Answer(schema: Schema, path: seq<Descent>, source: int, call: Call): Resolved {
    if 0 <= source < |path| && path[source].call == call && schema.Lookup(call.parent, call.name).Some?
    then Wrapped(schema.Lookup(call.parent, call.name).value.lists, Object(path[source].typeName, source + 1))
    else Nothing
  }

  function Along(schema: Schema, path: seq<Descent>): Resolver<()> {
    (store: (), source: int, call: Call) => ((), Answer(schema, path, source, call))
  }

  /** The path leads from a selection set down to the call. */
  ghost predicate Leads(c: Context, parent: string, selections: seq<Selection>, root: bool, call: Call,
                        path: seq<Descent>)
    requires Acyclic(c.fragments)
    decreases |path|, 1
  {
    exists group :: group in Groups(Fields(c, parent, selections)) && LeadsBy(c, parent, group, root, call, path)
  }

  ghost predicate LeadsBy(c: Context, parent: string, group: seq<FieldNode>, root: bool, call: Call, path: seq<Descent>)
    requires Acyclic(c.fragments)
    decreases |path|, 0
  {
    && group != [] && group[0].name != "__typename" && c.schema.Lookup(parent, group[0].name).Some?
    && if path == [] then call == CallOf(c, parent, group[0], root)
       else
         && path[0].call == CallOf(c, parent, group[0], root)
         && path[0].typeName in ChildTypes(c, parent, group)
         && Leads(c, path[0].typeName, Merged(group), false, call, path[1..])
  }

  /** There is a path to every call of the naive count. */
  lemma {:induction false} PathTo(c: Context, parent: string, selections: seq<Selection>, root: bool, call: Call)
    returns (path: seq<Descent>)
    requires Acyclic(c.fragments) && Valid(c, parent, selections)
    requires call in Calls(c, parent, selections, root)
    ensures Leads(c, parent, selections, root, call, path)
    decreases Height(c, selections), 1
  {
    GroupsAreValid(c, parent, selections);
    CallsByGroup(c, parent, selections, root, call);
    var group :| group in Groups(Fields(c, parent, selections)) && call in GroupCalls(c, parent, group, root);
    path := PathThrough(c, parent, group, root, call, Height(c, selections));
  }

  lemma {:induction false} PathThrough(c: Context, parent: string, group: seq<FieldNode>, root: bool, call: Call,
                                       height: nat)
    returns (path: seq<Descent>)
    requires Acyclic(c.fragments) && ValidGroup(c, parent, group) && Height(c, Merged(group)) < height
    requires call in GroupCalls(c, parent, group, root)
    ensures LeadsBy(c, parent, group, root, call, path)
    decreases height, 0
  {
    var own := CallOf(c, parent, group[0], root);
    if call == own {
      path := [];
    } else {
      var t :| t in ChildTypes(c, parent, group) && call in Calls(c, t, Merged(group), false);
      var rest := PathTo(c, t, Merged(group), false, call);
      path := [Descent(own, t)] + rest;
      assert path[1..] == rest;
    }
  }

  /** An object in single-item lists is executed as the object. */
  lemma {:induction false} WrappedCompletes<S>(c: Context, resolve: Resolver<S>, w: World<S>, typeName: string,
                                      levels: nat, t: string, id: int, selections: seq<Selection>)
    requires Acyclic(c.fragments) && t in c.schema.RuntimeTypes(typeName)
    ensures Complete(c, resolve, w, typeName, Wrapped(levels, Object(t, id)), selections) ==
            ExecuteSelections(c, resolve, w, t, id, selections, false)
  {
    if levels > 0 {
      WrappedCompletes(c, resolve, w, typeName, levels - 1, t, id, selections);
      var items := [Wrapped(levels - 1, Object(t, id))];
      var w' := Complete(c, resolve, w, typeName, items[0], selections);
      assert items[1..] == [];
      assert CompleteMany(c, resolve, w', typeName, items[1..], selections) == w';
    }
  }

  /** Execution with the resolvers of a path makes the call the path leads to. */
  lemma {:induction false} SelectionsReach(c: Context, w: World<()>, parent: string, depth: nat,
                                        selections: seq<Selection>,
                                  root: bool, call: Call, path: seq<Descent>)
    requires Acyclic(c.fragments) && Valid(c, parent, selections)
    requires depth <= |path| && Leads(c, parent, selections, root, call, path[depth..])
    ensures call in ExecuteSelections(c, Along(c.schema, path), w, parent, depth, selections, root).log
    decreases Height(c, selections), 2
  {
    var groups := Groups(Fields(c, parent, selections));
    GroupsAreValid(c, parent, selections);
    var group :| group in groups && LeadsBy(c, parent, group, root, call, path[depth..]);
    GroupsReach(c, w, parent, depth, groups, root, Height(c, selections), group, call, path);
  }

  lemma {:induction false} GroupsReach(c: Context, w: World<()>, parent: string, depth: nat,
                                       groups: seq<seq<FieldNode>>,
                              root: bool, height: nat, group: seq<FieldNode>, call: Call, path: seq<Descent>)
    requires Acyclic(c.fragments)
    requires forall x :: x in groups ==> x != []
    requires forall x :: x in groups ==> ValidGroup(c, parent, x) && Height(c, Merged(x)) < height
    requires depth <= |path| && group in groups && LeadsBy(c, parent, group, root, call, path[depth..])
    ensures call in ExecuteGroups(c, Along(c.schema, path), w, parent, depth, groups, root, height).log
    decreases height, 1, |groups|
  {
    assert groups[0] in groups && forall x :: x in groups[1..] ==> x in groups;
    var w' := ExecuteField(c, Along(c.schema, path), w, parent, depth, groups[0], root);
    if group == groups[0] {
      FieldReaches(c, w, parent, depth, group, root, call, path);
      GroupsKeepLog(c, Along(c.schema, path), w', parent, depth, groups[1..], root, height);
    } else {
      GroupsReach(c, w', parent, depth, groups[1..], root, height, group, call, path);
    }
  }

  /** What has been called stays in the log. */
  lemma GroupsKeepLog(c: Context, resolve: Resolver<()>, w: World<()>, parent: string, source: int,
                      groups: seq<seq<FieldNode>>, root: bool, height: nat)
    requires Acyclic(c.fragments)
    requires forall x :: x in groups ==> x != []
    requires forall x :: x in groups ==> ValidGroup(c, parent, x) && Height(c, Merged(x)) < height
    ensures w.log <= ExecuteGroups(c, resolve, w, parent, source, groups, root, height).log
  {
    var calls := set g, x | g in groups && x in GroupCallsOrNone(c, parent, g, root) :: x;
    forall g | g in groups ensures GroupCalls(c, parent, g, root) <= calls {
      assert GroupCalls(c, parent, g, root) == GroupCallsOrNone(c, parent, g, root);
    }
    GroupsStayInside(c, resolve, w, parent, source, groups, root, height, calls);
  }

  ghost function GroupCallsOrNone(c: Context, parent: string, group: seq<FieldNode>, root: bool): set<Call>
    requires Acyclic(c.fragments)
  {
    if group == [] then {} else GroupCalls(c, parent, group, root)
  }

  lemma {:induction false} FieldReaches(c: Context, w: World<()>, parent: string, depth: nat, group: seq<FieldNode>,
                               root: bool, call: Call, path: seq<Descent>)
    requires Acyclic(c.fragments) && ValidGroup(c, parent, group)
    requires depth <= |path| && LeadsBy(c, parent, group, root, call, path[depth..])
    ensures call in ExecuteField(c, Along(c.schema, path), w, parent, depth, group, root).log
    decreases Height(c, Merged(group)), 4
  {
    var own := CallOf(c, parent, group[0], root);
    var field := c.schema.Lookup(parent, group[0].name).value;
    var resolve := Along(c.schema, path);
    var w' := World((), w.log + [own]);
    var resolved := Answer(c.schema, path, depth, own);
    if path[depth..] == [] {
      assert w'.log[|w.log|] == own;
      var below := set t, x | t in ChildTypes(c, parent, group) && x in Calls(c, t, Merged(group), false) :: x;
      CompleteStaysInside(c, resolve, w', field.typeName, resolved, Merged(group), below);
    } else {
      var t := path[depth].typeName;
      assert path[depth..][0] == path[depth] && path[depth..][1..] == path[depth + 1..];
      WrappedCompletes(c, resolve, w', field.typeName, field.lists, t, depth + 1, Merged(group));
      SelectionsReach(c, w', t, depth + 1, Merged(group), false, call, path);
    }
  }

  /* ---------- Whole operations ---------- */

  ghost predicate ValidOperation(schema: Schema, document: Document, operation: Operation,
                                 variables: map<string, Value>) {
    var c := ContextOf(schema, document, variables);
    && Acyclic(c.fragments)
    && ReservedNames(schema)
    && (operation.kind in schema.roots ==>
          schema.IsObject(schema.roots[operation.kind]) && Valid(c, schema.roots[operation.kind], operation.selections))
  }

  /** ExecuteQuery and ExecuteMutation. */
  function ExecuteOperation<S>(schema: Schema, document: Document, operation: Operation, variables: map<string, Value>,
                               resolve: Resolver<S>, w: World<S>): World<S>
    requires Acyclic(FragmentMap(document.fragments))
  {
    if operation.kind !in schema.roots then w
    else ExecuteSelections(ContextOf(schema, document, variables), resolve, w, schema.roots[operation.kind], 0,
      operation.selections, true)
  }

  /** Every call the operation can make, by the naive count. */
  ghost function OperationCalls(schema: Schema, document: Document, operation: Operation,
                                variables: map<string, Value>): set<Call>
    requires Acyclic(FragmentMap(document.fragments))
  {
    if operation.kind !in schema.roots then {}
    else Calls(ContextOf(schema, document, variables), schema.roots[operation.kind], operation.selections, true)
  }

  /** Whatever the resolvers do, an accepted operation only ever resolves permitted fields. */
  lemma AcceptedIsSafe<S>(g: Gate, user: User, schema: Schema, document: Document, operation: Operation,
                          variables: map<string, Value>, resolve: Resolver<S>, w: World<S>)
    requires ValidOperation(schema, document, operation, variables) && ConcreteEdges(g, schema)
    requires CheckOperation(g, user, schema, document, operation, variables)
    ensures AllPermitted(g, user, schema, OperationCalls(schema, document, operation, variables))
    ensures Adds(w, ExecuteOperation(schema, document, operation, variables, resolve, w),
                 OperationCalls(schema, document, operation, variables))
  {
    var c := ContextOf(schema, document, variables);
    var root := schema.roots[operation.kind];
    CheckDecides(g, user, c, root, operation.selections, true);
    SelectionsStayInside(c, resolve, w, root, 0, operation.selections, true);
  }

  /**
   The policy is not stricter than that: for a denied operation, resolvers that answer with objects along
   one path, and with null everywhere else, let it reach a field that is not permitted.
   */
  lemma DeniedIsUnsafe(g: Gate, user: User, schema: Schema, document: Document, operation: Operation,
                       variables: map<string, Value>)
    returns (call: Call, path: seq<Descent>)
    requires ValidOperation(schema, document, operation, variables) && ConcreteEdges(g, schema)
    requires !HasFragmentVariables(FragmentMap(document.fragments)) && operation.kind in schema.roots
    requires !CheckOperation(g, user, schema, document, operation, variables)
    ensures !Permitted(g, user, schema, call)
    ensures call in ExecuteOperation(schema, document, operation, variables, Along(schema, path), World((), [])).log
  {
    var c := ContextOf(schema, document, variables);
    var root := schema.roots[operation.kind];
    CheckDecides(g, user, c, root, operation.selections, true);
    call :| call in Calls(c, root, operation.selections, true) && !Permitted(g, user, schema, call);
    path := PathTo(c, root, operation.selections, true, call);
    assert path[0..] == path;
    SelectionsReach(c, World((), []), root, 0, operation.selections, true, call, path);
  }

  /** Every call that some resolvers let the operation make is permitted. */
  ghost predicate OnlyPermittedCalls(g: Gate, user: User, schema: Schema, document: Document, operation: Operation,
                                     variables: map<string, Value>)
    requires Acyclic(FragmentMap(document.fragments))
  {
    forall resolve: Resolver<()>, call ::
      call in ExecuteOperation(schema, document, operation, variables, resolve, World((), [])).log ==>
        Permitted(g, user, schema, call)
  }

  /** Both directions at once: acceptance is permission of everything that execution can reach. */
  lemma PolicyIsExact(g: Gate, user: User, schema: Schema, document: Document, operation: Operation,
                      variables: map<string, Value>)
    requires ValidOperation(schema, document, operation, variables) && ConcreteEdges(g, schema)
    requires !HasFragmentVariables(FragmentMap(document.fragments)) && operation.kind in schema.roots
    ensures CheckOperation(g, user, schema, document, operation, variables) <==>
            OnlyPermittedCalls(g, user, schema, document, operation, variables)
  {
    if CheckOperation(g, user, schema, document, operation, variables) {
      forall resolve: Resolver<()>, call |
        call in ExecuteOperation(schema, document, operation, variables, resolve, World((), [])).log
        ensures Permitted(g, user, schema, call)
      {
        AcceptedIsSafe(g, user, schema, document, operation, variables, resolve, World((), []));
        var log := ExecuteOperation(schema, document, operation, variables, resolve, World((), [])).log;
        assert log[0..] == log;
      }
    } else {
      var _, _ := DeniedIsUnsafe(g, user, schema, document, operation, variables);
    }
  }

  /* ---------- Why the tables must lead to object types only ---------- */

  /** `{ name { ... on CorpusType { field } } }` */
  function Probe(name: string, field: string): seq<Selection> {
    [Field(FieldNode(None, name, map[], PLAIN,
      [Inline(Some("CorpusType"), PLAIN, [Field(FieldNode(None, field, map[], PLAIN, []))])]))]
  }

  lemma FieldsOfProbe(c: Context, parent: string, name: string, field: string)
    ensures var s := Probe(name, field);
            && Fields(c, parent, s) == [s[0].node]
            && Groups([s[0].node]) == [[s[0].node]]
            && Merged([s[0].node]) == s[0].node.selections
    ensures var inner := Probe(name, field)[0].node.selections;
            && (parent == "CorpusType" ==> Fields(c, parent, inner) == [inner[0].body[0].node])
            && (parent != "CorpusType" ==>
                  ("CorpusType" in c.schema.types && c.schema.types["CorpusType"].AbstractType?) ||
                  Fields(c, parent, inner) == [])
  {
    var s := Probe(name, field);
    var inner := s[0].node.selections;
    var body := inner[0].body;
    assert s[1..] == [] && inner[1..] == [] && body[1..] == [] && [s[0].node][1..] == [];
    assert Collect(c, parent, s[1..], {}) == ([], {}) && Collect(c, parent, inner[1..], {}) == ([], {});
    assert Collect(c, parent, body[1..], {}) == ([], {});
    assert CollectOne(c, parent, s[0], {}) == ([s[0].node], {});
    assert CollectOne(c, parent, body[0], {}) == ([body[0].node], {});
    assert Collect(c, parent, body, {}).0 == [body[0].node] + [];
    assert Collect(c, parent, s, {}).0 == [s[0].node] + [];
    assert WithKey([s[0].node], s[0].node.Key()) == [s[0].node];
    assert WithoutKey([s[0].node][1..], s[0].node.Key()) == [];
    assert Merged([s[0].node][1..]) == [];
    assert s[0].node.selections + [] == s[0].node.selections;
    if parent == "CorpusType" {
      assert CollectOne(c, parent, inner[0], {}) == Collect(c, parent, body, {});
      assert Collect(c, parent, inner, {}).0 == [body[0].node] + [];
    } else {
      assert Collect(c, parent, inner, {}).0 == CollectOne(c, parent, inner[0], {}).0 + [];
    }
  }

  /**
   A root field the caller may use without arguments, whose type is an interface with the one
   implementation `CorpusType`; and a leaf field of `CorpusType` outside the metadata contract.
   */
  predicate LeadsToInterface(g: Gate, user: User, schema: Schema, name: string, field: string) {
    && ReservedNames(schema)
    && Query in schema.roots && schema.IsObject(schema.roots[Query])
    && name != "__typename" && name in schema.FieldsOf(schema.roots[Query])
    && schema.IsObject("CorpusType")
    && field != "__typename" && field in schema.FieldsOf("CorpusType") && field !in g.tables.corpusFields
    && schema.FieldsOf("CorpusType")[field].typeName !in schema.types
    && var definition := schema.FieldsOf(schema.roots[Query])[name];
       && definition.parameters == definition.defaults.Keys
       && RootAllowed(g, user, schema.roots[Query], name, definition.defaults)
       && definition.typeName in schema.types && definition.typeName != "CorpusType"
       && schema.types[definition.typeName].AbstractType? &&
         schema.types[definition.typeName].possible == {"CorpusType"}
  }

  /**
   The policy walks the declared type of a field, the executor the runtime type. Were a permitted
   root field to return an interface that `CorpusType` implements, the policy would accept a
   fragment on `CorpusType` unread, and execution would resolve the field inside it.
   */
  lemma AbstractEdgeLeaks(g: Gate, user: User, schema: Schema, name: string, field: string)
    requires LeadsToInterface(g, user, schema, name, field)
    ensures var operation := Operation(None, Query, Probe(name, field));
            var document := Document([operation], []);
            && ValidOperation(schema, document, operation, map[])
            && CheckOperation(g, user, schema, document, operation, map[])
            && exists call, path :: !Permitted(g, user, schema, call) &&
                 call in ExecuteOperation(schema, document, operation, map[], Along(schema, path), World((), [])).log
  {
    var operation := Operation(None, Query, Probe(name, field));
    var document := Document([operation], []);
    var c := ContextOf(schema, document, map[]);
    var root := schema.roots[Query];
    var definition := schema.FieldsOf(root)[name];
    var node := Probe(name, field)[0].node;
    var leaf := node.selections[0].body[0].node;
    assert Acyclic(c.fragments) by {
      var none: map<string, nat> := map[];
      assert Ranked(c.fragments, none);
    }
    assert Probe(name, field) == [Field(node)];
    assert schema.Lookup(root, name) == Some(definition);
    assert schema.Lookup("CorpusType", field) == Some(schema.FieldsOf("CorpusType")[field]);
    FieldsOfProbe(c, root, name, field);
    FieldsOfProbe(c, definition.typeName, name, field);
    FieldsOfProbe(c, "CorpusType", name, field);
    ArgumentsByDefault(definition, node, c.variables);
    ProbeIsValid(c, root, definition.typeName, node, leaf);
    ProbeIsAccepted(g, user, c, root, definition.typeName, node);
    ProbeCalls(c, root, definition.typeName, node, leaf);
    var call := CallOf(c, "CorpusType", leaf, false);
    assert !Permitted(g, user, schema, call);
    var path := PathTo(c, root, operation.selections, true, call);
    assert path[0..] == path;
    SelectionsReach(c, World((), []), root, 0, operation.selections, true, call, path);
    assert call in ExecuteOperation(schema, document, operation, map[], Along(schema, path), World((), [])).log;
  }

  lemma ProbeCalls(c: Context, root: string, iface: string, node: FieldNode, leaf: FieldNode)
    requires Acyclic(c.fragments)
    requires node.name != "__typename" && leaf.name != "__typename"
    requires Fields(c, root, [Field(node)]) == [node] && Fields(c, "CorpusType", node.selections) == [leaf]
    requires c.schema.Lookup(root, node.name).Some? && c.schema.Lookup(root, node.name).value.typeName == iface
    requires c.schema.RuntimeTypes(iface) == {"CorpusType"}
    requires c.schema.Lookup("CorpusType", leaf.name).Some?
    ensures CallOf(c, "CorpusType", leaf, false) in Calls(c, root, [Field(node)], true)
  {
    var call := CallOf(c, "CorpusType", leaf, false);
    assert call in CallsField(c, "CorpusType", leaf, false);
    CallsOfFields(c, "CorpusType", node.selections, false, call);
    assert "CorpusType" in c.schema.RuntimeTypes(iface) && call in Calls(c, "CorpusType", node.selections, false);
    assert call in CallsField(c, root, node, true);
    CallsOfFields(c, root, [Field(node)], true, call);
  }

  lemma ArgumentsByDefault(field: FieldDefinition, node: FieldNode, variables: map<string, Value>)
    requires node.arguments == map[] && field.parameters == field.defaults.Keys
    ensures ArgumentValues(field, node, variables) == field.defaults
  {
  }

  lemma ProbeIsValid(c: Context, root: string, iface: string, node: FieldNode, leaf: FieldNode)
    requires Acyclic(c.fragments)
    requires [Field(node)] == Probe(node.name, leaf.name) && node.name != "__typename" && leaf.name != "__typename"
    requires Fields(c, root, [Field(node)]) == [node] && Groups([node]) == [[node]] && Merged([node]) == node.selections
    requires Fields(c, "CorpusType", node.selections) == [leaf] && leaf.selections == []
    requires c.schema.Lookup(root, node.name).Some? && c.schema.Lookup(root, node.name).value.typeName == iface
    requires iface in c.schema.types && c.schema.RuntimeTypes(iface) == {"CorpusType"}
    requires c.schema.Lookup("CorpusType", leaf.name).Some? &&
             !c.schema.IsComposite(c.schema.Lookup("CorpusType", leaf.name).value.typeName)
    ensures Valid(c, root, [Field(node)])
  {
    assert Groups([leaf]) == [[leaf]] by {
      assert WithKey([leaf], leaf.Key()) == [leaf];
      assert [leaf][1..] == [];
    }
    assert c.schema.RuntimeTypes(c.schema.Lookup("CorpusType", leaf.name).value.typeName) == {};
    assert ChildTypes(c, "CorpusType", [leaf]) == {};
    assert Valid(c, "CorpusType", node.selections);
    assert ChildTypes(c, root, [node]) == {"CorpusType"};
  }

  lemma ProbeIsAccepted(g: Gate, user: User, c: Context, root: string, iface: string, node: FieldNode)
    requires Acyclic(c.fragments)
    requires Fields(c, root, [Field(node)]) == [node] && Groups([node]) == [[node]] && Merged([node]) == node.selections
    requires Fields(c, iface, node.selections) == []
    requires node.name in c.schema.FieldsOf(root) && c.schema.FieldsOf(root)[node.name].typeName == iface
    requires RootAllowed(g, user, root, node.name,
             ArgumentValues(c.schema.FieldsOf(root)[node.name], node, c.variables))
    ensures Check(g, user, c, root, [Field(node)], true)
  {
    assert Groups([]) == [];
    assert Check(g, user, c, iface, node.selections, false);
    assert CheckGroup(g, user, c, root, [node], true);
  }
}
