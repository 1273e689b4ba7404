/**
 Execution of one operation (GraphQL specification, October 2021, sections 6.2 to
 6.4) with the resolvers as an arbitrary function over an arbitrary store. Only the
 resolver calls matter here, so they are logged; result assembly is left out.
 */
module Executor {
  import opened GraphQL
  import opened Fragments
  import opened Footprint

  /** What a resolver may return; an object of an abstract type says its runtime type. */
  datatype Resolved = Nothing | Leaf | Object(typeName: string, id: int) | Many(items: seq<Resolved>)

  /** The store, the source object's id and the call, to the new store and the resolved value. */
  type Resolver<!S> = (S, int, Call) -> (S, Resolved)

  datatype World<S> = World(store: S, log: seq<Call>)

  /** ExecuteSelectionSet on one object, field by field as for a mutation. */
  function ExecuteSelections<S>(c: Context, resolve: Resolver<S>, w: World<S>, parent: string, source: int,
                                selections: seq<Selection>, root: bool): World<S>
    requires Acyclic(c.fragments)
    decreases Height(c, selections), 2
  {
    var groups := Groups(Fields(c, parent, selections));
    assert forall group :: group in groups ==> Height(c, Merged(group)) < Height(c, selections) by {
      forall group | group in groups { GroupIsLower(c, parent, selections, group); }
    }
    ExecuteGroups(c, resolve, w, parent, source, groups, root, Height(c, selections))
  }

  function ExecuteGroups<S>(c: Context, resolve: Resolver<S>, w: World<S>, parent: string, source: int,
                            groups: seq<seq<FieldNode>>, root: bool, ghost height: nat): World<S>
    requires Acyclic(c.fragments)
    requires forall group :: group in groups ==> group != [] && Height(c, Merged(group)) < height
    decreases height, 1, |groups|
  {
    if groups == [] then w
    else
      assert groups[0] in groups && forall group :: group in groups[1..] ==> group in groups;
      ExecuteGroups(c, resolve, ExecuteField(c, resolve, w, parent, source, groups[0], root), parent, source,
                       groups[1..], root, height)
  }

  /** ExecuteField: `__typename` needs no resolver, and undefined fields are skipped. */
  function ExecuteField<S>(c: Context, resolve: Resolver<S>, w: World<S>, parent: string, source: int,
                           group: seq<FieldNode>, root: bool): World<S>
    requires Acyclic(c.fragments) && group != []
    decreases Height(c, Merged(group)), 4
  {
    if group[0].name == "__typename" || c.schema.Lookup(parent, group[0].name).None? then w
    else
      var call := CallOf(c, parent, group[0], root);
      var (store, resolved) := resolve(w.store, source, call);
      Complete(c, resolve, World(store, w.log + [call]), c.schema.Lookup(parent, group[0].name).value.typeName,
               resolved, Merged(group))
  }

  /** CompleteValue: lists item by item, objects by their runtime type. */
  function Complete<S>(c: Context, resolve: Resolver<S>, w: World<S>, typeName: string,
                       resolved: Resolved, selections: seq<Selection>): World<S>
    requires Acyclic(c.fragments)
    decreases Height(c, selections), 3, resolved
  {
    match resolved
    case Nothing => w
    case Leaf => w
    case Object(t, id) =>
      var runtime := if c.schema.IsObject(typeName) then typeName else t;
      if runtime in c.schema.RuntimeTypes(typeName)
        then ExecuteSelections(c, resolve, w, runtime, id, selections, false)
      else w
    case Many(items) => CompleteMany(c, resolve, w, typeName, items, selections)
  }

  function CompleteMany<S>(c: Context, resolve: Resolver<S>, w: World<S>, typeName: string,
                           items: seq<Resolved>, selections: seq<Selection>): World<S>
    requires Acyclic(c.fragments)
    decreases Height(c, selections), 3, items
  {
    if items == [] then w
    else CompleteMany(c, resolve, Complete(c, resolve, w, typeName, items[0], selections), typeName, items[1..],
      selections)
  }

  /* ---------- Soundness: execution stays inside the footprint ---------- */

  /** The log only grows, and everything new is in `calls`. */
  ghost predicate Adds<S>(before: World<S>, after: World<S>, calls: set<Call>) {
    && before.log <= after.log
    && forall call :: call in after.log[|before.log|..] ==> call in calls
  }

  lemma AddsTransitive<S>(a: World<S>, b: World<S>, c: World<S>, x: set<Call>, y: set<Call>, z: set<Call>)
    requires Adds(a, b, x) && Adds(b, c, y) && x <= z && y <= z
    ensures Adds(a, c, z)
  {
    assert c.log[|a.log|..] == b.log[|a.log|..] + c.log[|b.log|..];
  }

  lemma GroupsAreValid(c: Context, parent: string, selections: seq<Selection>)
    requires Acyclic(c.fragments) && Valid(c, parent, selections)
    ensures forall group :: group in Groups(Fields(c, parent, selections)) ==>
              ValidGroup(c, parent, group) && Height(c, Merged(group)) < Height(c, selections)
  {
    forall group | group in Groups(Fields(c, parent, selections))
      ensures ValidGroup(c, parent, group) && Height(c, Merged(group)) < Height(c, selections)
    {
      GroupIsLower(c, parent, selections, group);
    }
  }

  /** The calls of the groups are the calls of the selection set. */
  lemma CallsByGroup(c: Context, parent: string, selections: seq<Selection>, root: bool, call: Call)
    requires Acyclic(c.fragments) && Valid(c, parent, selections)
    ensures call in Calls(c, parent, selections, root) <==>
            exists group :: group in Groups(Fields(c, parent, selections)) && call in GroupCalls(c, parent, group, root)
  {
    CallsOfFields(c, parent, selections, root, call);
    var groups := Groups(Fields(c, parent, selections));
    forall group | group in groups
      ensures call in GroupCalls(c, parent, group, root) <==> InGroup(c, parent, group, root, call)
    {
      assert group[0] in group;
      GroupCallsAre(c, parent, group, root, call);
    }
    if f :| f in Fields(c, parent, selections) && call in CallsField(c, parent, f, root) {
      var group :| group in groups && f in group;
      assert InGroup(c, parent, group, root, call);
    }
  }

  lemma GroupCallsAre(c: Context, parent: string, group: seq<FieldNode>, root: bool, call: Call)
    requires Acyclic(c.fragments) && group != [] && Agree(group)
    ensures call in GroupCalls(c, parent, group, root) <==> InGroup(c, parent, group, root, call)
  {
    if group[0].name != "__typename" && c.schema.Lookup(parent, group[0].name).Some? {
      CallsOfGroup(c, parent, group, root, call);
    } else {
      assert group[0] in group;
    }
  }

  lemma {:induction false} SelectionsStayInside<S>(c: Context, resolve: Resolver<S>, w: World<S>, parent: string,
                                        source: int,
                                  selections: seq<Selection>, root: bool)
    requires Acyclic(c.fragments) && Valid(c, parent, selections)
    ensures Adds(w, ExecuteSelections(c, resolve, w, parent, source, selections, root),
            Calls(c, parent, selections, root))
    decreases Height(c, selections), 2
  {
    var groups := Groups(Fields(c, parent, selections));
    GroupsAreValid(c, parent, selections);
    forall group, call | group in groups && call in GroupCalls(c, parent, group, root)
      ensures call in Calls(c, parent, selections, root)
    {
      CallsByGroup(c, parent, selections, root, call);
    }
    GroupsStayInside(c, resolve, w, parent, source, groups, root, Height(c, selections),
      Calls(c, parent, selections, root));
  }

  /** The calls one executed group can make. */
  ghost function GroupCalls(c: Context, parent: string, group: seq<FieldNode>, root: bool): set<Call>
    requires Acyclic(c.fragments) && group != []
  {
    if group[0].name == "__typename" || c.schema.Lookup(parent, group[0].name).None? then {}
    else
      {CallOf(c, parent, group[0], root)} +
      set t, call | t in ChildTypes(c, parent, group) && call in Calls(c, t, Merged(group), false) :: call
  }

  ghost predicate ValidGroup(c: Context, parent: string, group: seq<FieldNode>)
    requires Acyclic(c.fragments)
  {
    group != [] && forall t :: t in ChildTypes(c, parent, group) ==> Valid(c, t, Merged(group))
  }

  lemma {:induction false} GroupsStayInside<S>(c: Context, resolve: Resolver<S>, w: World<S>, parent: string,
                                        source: int,
                              groups: seq<seq<FieldNode>>, root: bool, height: nat, calls: set<Call>)
    requires Acyclic(c.fragments)
    requires forall group :: group in groups ==> group != []
    requires forall group :: group in groups ==>
               && ValidGroup(c, parent, group)
               && Height(c, Merged(group)) < height
               && GroupCalls(c, parent, group, root) <= calls
    ensures Adds(w, ExecuteGroups(c, resolve, w, parent, source, groups, root, height), calls)
    decreases height, 1, |groups|
  {
    if groups != [] {
      assert groups[0] in groups && forall group :: group in groups[1..] ==> group in groups;
      var w' := ExecuteField(c, resolve, w, parent, source, groups[0], root);
      FieldStaysInside(c, resolve, w, parent, source, groups[0], root);
      GroupsStayInside(c, resolve, w', parent, source, groups[1..], root, height, calls);
      AddsTransitive(w, w', ExecuteGroups(c, resolve, w, parent, source, groups, root, height),
                     GroupCalls(c, parent, groups[0], root), calls, calls);
    }
  }

  lemma {:induction false} FieldStaysInside<S>(c: Context, resolve: Resolver<S>, w: World<S>, parent: string,
                                        source: int,
                              group: seq<FieldNode>, root: bool)
    requires Acyclic(c.fragments) && ValidGroup(c, parent, group)
    ensures Adds(w, ExecuteField(c, resolve, w, parent, source, group, root), GroupCalls(c, parent, group, root))
    decreases Height(c, Merged(group)), 4
  {
    if group[0].name != "__typename" && c.schema.Lookup(parent, group[0].name).Some? {
      var call := CallOf(c, parent, group[0], root);
      var (store, resolved) := resolve(w.store, source, call);
      var typeName := c.schema.Lookup(parent, group[0].name).value.typeName;
      var below := set t, x | t in ChildTypes(c, parent, group) && x in Calls(c, t, Merged(group), false) :: x;
      var w' := World(store, w.log + [call]);
      CompleteStaysInside(c, resolve, w', typeName, resolved, Merged(group), below);
      AddsTransitive(w, w', ExecuteField(c, resolve, w, parent, source, group, root), {call}, below,
                     GroupCalls(c, parent, group, root));
    }
  }

  lemma {:induction false} CompleteStaysInside<S>(c: Context, resolve: Resolver<S>, w: World<S>, typeName: string,
                                 resolved: Resolved, selections: seq<Selection>, calls: set<Call>)
    requires Acyclic(c.fragments)
    requires forall t :: t in c.schema.RuntimeTypes(typeName) ==>
             Valid(c, t, selections) && Calls(c, t, selections, false) <= calls
    ensures Adds(w, Complete(c, resolve, w, typeName, resolved, selections), calls)
    decreases Height(c, selections), 3, resolved
  {
    match resolved
    case Nothing =>
    case Leaf =>
    case Object(t, id) =>
      var runtime := if c.schema.IsObject(typeName) then typeName else t;
      if runtime in c.schema.RuntimeTypes(typeName) {
        SelectionsStayInside(c, resolve, w, runtime, id, selections, false);
      }
    case Many(items) => CompleteManyStaysInside(c, resolve, w, typeName, items, selections, calls);
  }

  lemma {:induction false} CompleteManyStaysInside<S>(c: Context, resolve: Resolver<S>, w: World<S>, typeName: string,
                                     items: seq<Resolved>, selections: seq<Selection>, calls: set<Call>)
    requires Acyclic(c.fragments)
    requires forall t :: t in c.schema.RuntimeTypes(typeName) ==>
             Valid(c, t, selections) && Calls(c, t, selections, false) <= calls
    ensures Adds(w, CompleteMany(c, resolve, w, typeName, items, selections), calls)
    decreases Height(c, selections), 3, items
  {
    if items != [] {
      var w' := Complete(c, resolve, w, typeName, items[0], selections);
      CompleteStaysInside(c, resolve, w, typeName, items[0], selections, calls);
      CompleteManyStaysInside(c, resolve, w', typeName, items[1..], selections, calls);
      AddsTransitive(w, w', CompleteMany(c, resolve, w, typeName, items, selections), calls, calls, calls);
    }
  }
}
