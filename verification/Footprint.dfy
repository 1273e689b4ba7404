/**
 What an operation may make an executor resolve, computed naively: every fragment
 is inlined every time, nothing is merged and every occurrence of a field counts.
 The policy's merged, visit-once walk is proved to decide exactly whether all of
 these calls are permitted.
 */
module Footprint {
  import opened Wrappers
  import opened GraphQL
  import opened Fragments
  import opened Inlining
  import opened AutomationCredentials
  import opened Automation

  /** One resolver call: a field of `parent` with its actual arguments. */
  datatype Call = Call(root: bool, parent: string, name: string, arguments: map<string, Value>)

  /** What the policy means to allow, said of a single call. */
  predicate Permitted(g: Gate, user: User, schema: Schema, call: Call) {
    && call.name in schema.FieldsOf(call.parent)
    && if call.root then RootAllowed(g, user, call.parent, call.name, call.arguments)
       else
         && MetadataAllowed(g, call.parent, call.name)
         && (schema.IsComposite(schema.FieldsOf(call.parent)[call.name].typeName) ==>
               EdgeAllowed(g, call.parent, call.name))
  }

  function CallOf(c: Context, parent: string, node: FieldNode, root: bool): Call
    requires c.schema.Lookup(parent, node.name).Some?
  {
    Call(root, parent, node.name, ArgumentValues(c.schema.Lookup(parent, node.name).value, node, c.variables))
  }

  /** All calls below a selection set of an object of type `parent`. */
  ghost function Calls(c: Context, parent: string, selections: seq<Selection>, root: bool): set<Call>
    requires Acyclic(c.fragments)
    decreases Bound(Rank(c.fragments), selections), selections
  {
    if selections == [] then {}
    else CallsOne(c, parent, selections[0], root) + Calls(c, parent, selections[1..], root)
  }

  ghost function CallsOne(c: Context, parent: string, selection: Selection, root: bool): set<Call>
    requires Acyclic(c.fragments)
    decreases BoundOne(Rank(c.fragments), selection), selection
  {
    match selection
    case Field(node) =>
      if Included(node.directives, c.variables) then CallsField(c, parent, node, root) else {}
    case Inline(on, directives, body) =>
      if !Included(directives, c.variables) || !c.schema.Matches(on, parent) then {}
      else Calls(c, parent, body, root)
    case Spread(name, directives) =>
      if !Included(directives, c.variables) || !Applies(c, parent, name) then {}
      else Calls(c, parent, c.fragments[name].selections, root)
  }

  ghost function CallsField(c: Context, parent: string, node: FieldNode, root: bool): set<Call>
    requires Acyclic(c.fragments)
    decreases Bound(Rank(c.fragments), node.selections), node
  {
    if node.name == "__typename" || c.schema.Lookup(parent, node.name).None? then {}
    else
      var types := c.schema.RuntimeTypes(c.schema.Lookup(parent, node.name).value.typeName);
      {CallOf(c, parent, node, root)} +
      set t, call | t in types && call in Calls(c, t, node.selections, false) :: call
  }

  /* ---------- What validation guarantees ---------- */

  /**
   The facts the policy relies on, at the level of collected fields: fields with one
   response key agree on name and arguments (section 5.3.2), fields exist (section
   5.3.1), and exactly the composite fields have sub-selections (section 5.3.3).
   */
  ghost predicate Valid(c: Context, parent: string, selections: seq<Selection>)
    requires Acyclic(c.fragments)
    decreases Height(c, selections)
  {
    && (forall f :: f in Fields(c, parent, selections) ==> ValidField(c, parent, f))
    && (forall group :: group in Groups(Fields(c, parent, selections)) ==>
          && Agree(group)
          && (forall t :: t in ChildTypes(c, parent, group) ==>
                (GroupIsLower(c, parent, selections, group); Valid(c, t, Merged(group)))))
  }

  predicate ValidField(c: Context, parent: string, f: FieldNode) {
    if f.name == "__typename" then f.selections == []
    else
      && c.schema.Lookup(parent, f.name).Some?
      && (f.selections != [] <==> c.schema.IsComposite(c.schema.Lookup(parent, f.name).value.typeName))
  }

  predicate Agree(group: seq<FieldNode>) {
    forall f, f' :: f in group && f' in group ==> f.name == f'.name && f.arguments == f'.arguments
  }

  function ChildTypes(c: Context, parent: string, group: seq<FieldNode>): set<string>
    requires group != []
  {
    if group[0].name == "__typename" || c.schema.Lookup(parent, group[0].name).None? then {}
    else c.schema.RuntimeTypes(c.schema.Lookup(parent, group[0].name).value.typeName)
  }

  /** The tables only lead to leaf and object types, never to interfaces or unions. */
  predicate ConcreteEdges(g: Gate, schema: Schema) {
    forall parent, name ::
      && parent in schema.types
      && name in schema.FieldsOf(parent)
      && (EdgeAllowed(g, parent, name) || (parent in g.tables.operations && name in g.tables.operations[parent]))
      && schema.IsComposite(schema.FieldsOf(parent)[name].typeName)
      ==> schema.IsObject(schema.FieldsOf(parent)[name].typeName)
  }

  /** `__schema` and `__type` are not among the declared fields. */
  predicate ReservedNames(schema: Schema) {
    forall parent, name :: parent in schema.types && name in schema.introspection ==> name !in schema.FieldsOf(parent)
  }

  /* ---------- The naive calls, seen through collection ---------- */

  lemma {:induction false} CallsOfFlat(c: Context, parent: string, selections: seq<Selection>, root: bool, call: Call)
    requires Acyclic(c.fragments)
    ensures call in Calls(c, parent, selections, root) <==>
            exists f :: f in Flat(c, parent, selections) && call in CallsField(c, parent, f, root)
    decreases Bound(Rank(c.fragments), selections), selections
  {
    if selections != [] {
      CallsOfFlatOne(c, parent, selections[0], root, call);
      CallsOfFlat(c, parent, selections[1..], root, call);
    }
  }

  lemma {:induction false} CallsOfFlatOne(c: Context, parent: string, selection: Selection, root: bool, call: Call)
    requires Acyclic(c.fragments)
    ensures call in CallsOne(c, parent, selection, root) <==>
            exists f :: f in FlatOne(c, parent, selection) && call in CallsField(c, parent, f, root)
    decreases BoundOne(Rank(c.fragments), selection), selection
  {
    match selection
    case Field(node) =>
      assert Included(node.directives, c.variables) ==> node in FlatOne(c, parent, selection);
    case Inline(on, directives, body) => CallsOfFlat(c, parent, body, root, call);
    case Spread(name, directives) =>
      if Applies(c, parent, name) {
        CallsOfFlat(c, parent, c.fragments[name].selections, root, call);
      }
  }

  /** The calls of a selection set are the calls of the fields collected from it. */
  lemma CallsOfFields(c: Context, parent: string, selections: seq<Selection>, root: bool, call: Call)
    requires Acyclic(c.fragments)
    ensures call in Calls(c, parent, selections, root) <==>
            exists f :: f in Fields(c, parent, selections) && call in CallsField(c, parent, f, root)
  {
    CallsOfFlat(c, parent, selections, root, call);
    forall f { CollectEqualsInlining(c, parent, selections, f); }
  }

  lemma {:induction false} CallsConcat(c: Context, parent: string, a: seq<Selection>, b: seq<Selection>, root: bool)
    requires Acyclic(c.fragments)
    ensures Calls(c, parent, a + b, root) == Calls(c, parent, a, root) + Calls(c, parent, b, root)
  {
    if a == [] {
      assert a + b == b;
    } else {
      assert (a + b)[1..] == a[1..] + b;
      CallsConcat(c, parent, a[1..], b, root);
    }
  }

  lemma {:induction false} CallsMerged(c: Context, parent: string, group: seq<FieldNode>, root: bool, call: Call)
    requires Acyclic(c.fragments)
    ensures call in Calls(c, parent, Merged(group), root) <==>
            exists f :: f in group && call in Calls(c, parent, f.selections, root)
  {
    if group != [] {
      CallsConcat(c, parent, group[0].selections, Merged(group[1..]), root);
      CallsMerged(c, parent, group[1..], root, call);
    }
  }

  ghost predicate InGroup(c: Context, parent: string, group: seq<FieldNode>, root: bool, call: Call)
    requires Acyclic(c.fragments)
  {
    exists f :: f in group && call in CallsField(c, parent, f, root)
  }

  /** The calls of one group whose fields agree: the field itself, and what is below the merged selections. */
  lemma CallsOfGroup(c: Context, parent: string, group: seq<FieldNode>, root: bool, call: Call)
    requires Acyclic(c.fragments) && group != [] && Agree(group)
    requires group[0].name != "__typename" && c.schema.Lookup(parent, group[0].name).Some?
    ensures InGroup(c, parent, group, root, call) <==>
            (call == CallOf(c, parent, group[0], root) ||
             exists t :: t in ChildTypes(c, parent, group) && call in Calls(c, t, Merged(group), false))
  {
    var own := CallOf(c, parent, group[0], root);
    forall f | f in group ensures CallOf(c, parent, f, root) == own {
      assert forall p :: Given(f, p, c.variables) == Given(group[0], p, c.variables);
    }
    if InGroup(c, parent, group, root, call) && call != own {
      var f :| f in group && call in CallsField(c, parent, f, root);
      var t :| t in ChildTypes(c, parent, group) && call in Calls(c, t, f.selections, false);
      CallsMerged(c, t, group, false, call);
    }
    if call == own {
      assert group[0] in group && call in CallsField(c, parent, group[0], root);
    }
    if t :| t in ChildTypes(c, parent, group) && call in Calls(c, t, Merged(group), false) {
      CallsMerged(c, t, group, false, call);
      var f :| f in group && call in Calls(c, t, f.selections, false);
      assert call in CallsField(c, parent, f, root);
    }
  }

  /* ---------- The policy decides the footprint ---------- */

  ghost predicate AllPermitted(g: Gate, user: User, schema: Schema, calls: set<Call>) {
    forall call :: call in calls ==> Permitted(g, user, schema, call)
  }

  /** The merged, visit-once walk agrees with looking at every occurrence of the full inlining. */
  lemma {:induction false} CheckDecides(g: Gate, user: User, c: Context, parent: string, selections: seq<Selection>,
                                        root: bool)
    requires Acyclic(c.fragments)
    requires ConcreteEdges(g, c.schema) && ReservedNames(c.schema)
    requires c.schema.IsObject(parent)
    requires Valid(c, parent, selections)
    ensures Check(g, user, c, parent, selections, root) <==>
            AllPermitted(g, user, c.schema, Calls(c, parent, selections, root))
    decreases Height(c, selections)
  {
    var fields := Fields(c, parent, selections);
    var groups := Groups(fields);
    forall group: seq<FieldNode> | group in groups
      ensures CheckGroup(g, user, c, parent, group, root) <==> GroupPermitted(g, user, c, parent, group, root)
    {
      GroupIsLower(c, parent, selections, group);
      if group[0].name != "__typename" && group[0].name in c.schema.FieldsOf(parent) {
        var child := c.schema.FieldsOf(parent)[group[0].name].typeName;
        if c.schema.IsObject(child) {
          assert child in ChildTypes(c, parent, group);
          CheckDecides(g, user, c, child, Merged(group), false);
        }
      }
      CheckGroupDecides(g, user, c, parent, group, root);
    }
    forall call { CallsOfFields(c, parent, selections, root, call); }
    if AllPermitted(g, user, c.schema, Calls(c, parent, selections, root)) {
      forall group | group in groups ensures GroupPermitted(g, user, c, parent, group, root) {
        forall call | InGroup(c, parent, group, root, call) ensures call in Calls(c, parent, selections, root) {
        }
      }
    }
    if Check(g, user, c, parent, selections, root) {
      forall call | call in Calls(c, parent, selections, root) ensures Permitted(g, user, c.schema, call) {
        var f :| f in fields && call in CallsField(c, parent, f, root);
        var group :| group in groups && f in group;
        assert InGroup(c, parent, group, root, call);
        assert GroupPermitted(g, user, c, parent, group, root);
      }
    }
  }

  ghost predicate GroupPermitted(g: Gate, user: User, c: Context, parent: string, group: seq<FieldNode>, root: bool)
    requires Acyclic(c.fragments)
  {
    forall call :: InGroup(c, parent, group, root, call) ==> Permitted(g, user, c.schema, call)
  }

  lemma CheckGroupDecides(g: Gate, user: User, c: Context, parent: string, group: seq<FieldNode>, root: bool)
    requires Acyclic(c.fragments)
    requires ConcreteEdges(g, c.schema) && ReservedNames(c.schema)
    requires c.schema.IsObject(parent)
    requires group != [] && Agree(group)
    requires forall f :: f in group ==> ValidField(c, parent, f)
    requires group[0].name != "__typename" && group[0].name in c.schema.FieldsOf(parent) ==>
               var child := c.schema.FieldsOf(parent)[group[0].name].typeName;
               c.schema.IsObject(child) ==>
                 (Check(g, user, c, child, Merged(group), false) <==>
                  AllPermitted(g, user, c.schema, Calls(c, child, Merged(group), false)))
    ensures CheckGroup(g, user, c, parent, group, root) <==> GroupPermitted(g, user, c, parent, group, root)
  {
    var node := group[0];
    assert node in group;
    if node.name == "__typename" {
    } else {
      assert c.schema.Lookup(parent, node.name).Some?;
      var own := CallOf(c, parent, node, root);
      assert own in CallsField(c, parent, node, root);
      assert InGroup(c, parent, group, root, own);
      forall call: Call
        ensures InGroup(c, parent, group, root, call) <==>
                (|| call == own
                 || exists t :: t in ChildTypes(c, parent, group) && call in Calls(c, t, Merged(group), false))
      {
        CallsOfGroup(c, parent, group, root, call);
      }
      if node.name in c.schema.FieldsOf(parent) {
        assert c.schema.Lookup(parent, node.name) == Some(c.schema.FieldsOf(parent)[node.name]);
        var child := c.schema.FieldsOf(parent)[node.name].typeName;
        if Permitted(g, user, c.schema, own) && c.schema.IsComposite(child) {
          assert c.schema.IsObject(child);
          assert ChildTypes(c, parent, group) == {child};
        }
      }
    }
  }
}
