/**
 What the whole walk costs. One collection visits each fragment once, but the walk collects anew
 below every group, so it matters how far the tables let it descend: at most to a depth `d`, and
 the cost is polynomial in the document. `CheckGrowth` has the converse.
 */
module CheckCost {
  import opened Numbers
  import opened GraphQL
  import opened Fragments
  import opened AutomationCredentials
  import opened Automation
  import opened CollectionCost

  /* ---------- The selections of a document, at any depth ---------- */

  function Written(selections: seq<Selection>): nat {
    if selections == [] then 0 else WrittenOne(selections[0]) + Written(selections[1..])
  }

  function WrittenOne(selection: Selection): nat {
    match selection
    case Field(node) => 1 + Written(node.selections)
    case Inline(_, _, body) => 1 + Written(body)
    case Spread(_, _) => 1
  }

  function WrittenIn(definitions: seq<Fragment>): nat {
    Unvisited(Written, definitions, {})
  }

  /** The selections written in the fragments, and outside of them. */
  function DocumentSize(definitions: seq<Fragment>, selections: seq<Selection>): nat {
    WrittenIn(definitions) + Written(selections)
  }

  /* ---------- The selections that the walk looks at ---------- */

  /** The walk collects below this group: it has selections, and no test stops the walk before them. */
  predicate Enters(g: Gate, user: User, c: Context, parent: string, group: seq<FieldNode>, root: bool)
    requires group != []
  {
    var node := group[0];
    && node.name != "__typename"
    && node.name in c.schema.FieldsOf(parent)
    && (if root then
          RootAllowed(g, user, parent, node.name,
                      ArgumentValues(c.schema.FieldsOf(parent)[node.name], node, c.variables))
        else MetadataAllowed(g, parent, node.name) && EdgeAllowed(g, parent, node.name))
    && exists selected :: selected in group && selected.selections != []
  }

  /** How many selections all collections of `Check` look at, until it returns or raises. */
  ghost function Walked(g: Gate, user: User, c: Context, parent: string, selections: seq<Selection>, root: bool): nat
    requires Acyclic(c.fragments)
    decreases Height(c, selections), 2
  {
    var groups := Groups(Fields(c, parent, selections));
    assert AreLower(c, groups, Height(c, selections)) by {
      GroupsAreLower(c, parent, selections);
    }
    Visits(c, parent, selections, {}) + WalkedGroups(g, user, c, parent, groups, root, Height(c, selections))
  }

  ghost predicate AreLower(c: Context, groups: seq<seq<FieldNode>>, height: nat)
    requires Acyclic(c.fragments)
  {
    forall group :: group in groups ==> group != [] && Height(c, Merged(group)) < height
  }

  lemma GroupsAreLower(c: Context, parent: string, selections: seq<Selection>)
    requires Acyclic(c.fragments)
    ensures AreLower(c, Groups(Fields(c, parent, selections)), Height(c, selections))
  {
    forall group | group in Groups(Fields(c, parent, selections)) {
      GroupIsLower(c, parent, selections, group);
    }
  }

  /** Groups are looked at in order; the first that is not allowed is the last one. */
  ghost function WalkedGroups(g: Gate, user: User, c: Context, parent: string, groups: seq<seq<FieldNode>>, root: bool,
                              height: nat): nat
    requires Acyclic(c.fragments) && AreLower(c, groups, height)
    decreases height, 1, |groups|
  {
    if groups == [] then 0
    else
      assert groups[0] in groups && forall group :: group in groups[1..] ==> group in groups;
      WalkedGroup(g, user, c, parent, groups[0], root) +
      if CheckGroup(g, user, c, parent, groups[0], root)
      then WalkedGroups(g, user, c, parent, groups[1..], root, height)
      else 0
  }

  ghost function WalkedGroup(g: Gate, user: User, c: Context, parent: string, group: seq<FieldNode>, root: bool): nat
    requires Acyclic(c.fragments) && group != []
    decreases Height(c, Merged(group)), 3
  {
    if Enters(g, user, c, parent, group, root)
    then Walked(g, user, c, c.schema.FieldsOf(parent)[group[0].name].typeName, Merged(group), false)
    else 0
  }

  /* ---------- How far the tables lead ---------- */

  /** The tables list this field as one to go below. */
  predicate Follows(g: Gate, schema: Schema, parent: string, name: string, root: bool) {
    && name != "__typename"
    && name in schema.FieldsOf(parent)
    && if root then parent in g.tables.operations && name in g.tables.operations[parent]
       else MetadataAllowed(g, parent, name) && EdgeAllowed(g, parent, name)
  }

  /** There is a chain of `n` listed fields from `parent`. */
  ghost predicate HasChain(g: Gate, schema: Schema, parent: string, root: bool, n: nat)
    decreases n
  {
    n == 0 ||
    exists name :: Follows(g, schema, parent, name, root) &&
                   HasChain(g, schema, schema.FieldsOf(parent)[name].typeName, false, n - 1)
  }

  lemma FirstOfChain(g: Gate, schema: Schema, parent: string, root: bool, n: nat) returns (name: string)
    requires HasChain(g, schema, parent, root, n) && n > 0
    ensures Follows(g, schema, parent, name, root)
    ensures HasChain(g, schema, schema.FieldsOf(parent)[name].typeName, false, n - 1)
  {
    name :| Follows(g, schema, parent, name, root) &&
            HasChain(g, schema, schema.FieldsOf(parent)[name].typeName, false, n - 1);
  }

  lemma EntersFollows(g: Gate, user: User, c: Context, parent: string, group: seq<FieldNode>, root: bool, n: nat)
    requires group != [] && Enters(g, user, c, parent, group, root)
    ensures Follows(g, c.schema, parent, group[0].name, root)
    ensures HasChain(g, c.schema, c.schema.FieldsOf(parent)[group[0].name].typeName, false, n) ==>
              HasChain(g, c.schema, parent, root, n + 1)
  {
  }

  /** Every listed edge leads to a lower level. */
  ghost predicate Falls(g: Gate, schema: Schema, level: string -> nat) {
    forall parent, name {:trigger Follows(g, schema, parent, name, false)} ::
      Follows(g, schema, parent, name, false) ==> level(schema.FieldsOf(parent)[name].typeName) < level(parent)
  }

  lemma {:induction false} ChainFalls(g: Gate, schema: Schema, level: string -> nat, parent: string, n: nat)
    requires Falls(g, schema, level) && HasChain(g, schema, parent, false, n)
    ensures n <= level(parent)
    decreases n
  {
    if n > 0 {
      var name := FirstOfChain(g, schema, parent, false, n);
      ChainFalls(g, schema, level, schema.FieldsOf(parent)[name].typeName, n - 1);
    }
  }

  /** With all types on levels below `top`, chains from a root have at most `top` fields. */
  lemma RootChainFalls(g: Gate, schema: Schema, level: string -> nat, parent: string, top: nat)
    requires Falls(g, schema, level) && forall t :: level(t) < top
    ensures !HasChain(g, schema, parent, true, top + 1)
  {
    if HasChain(g, schema, parent, true, top + 1) {
      var name := FirstOfChain(g, schema, parent, true, top + 1);
      ChainFalls(g, schema, level, schema.FieldsOf(parent)[name].typeName, top);
    }
  }

  /* ---------- What a collection hands on ---------- */

  /** Fields with all that is written below them. */
  function Load(fields: seq<FieldNode>): nat {
    if fields == [] then 0 else 1 + Written(fields[0].selections) + Load(fields[1..])
  }

  lemma {:induction false} LoadConcat(a: seq<FieldNode>, b: seq<FieldNode>)
    ensures Load(a + b) == Load(a) + Load(b)
  {
    if a == [] {
      assert a + b == b;
    } else {
      assert (a + b)[1..] == a[1..] + b;
      LoadConcat(a[1..], b);
    }
  }

  /** The collected fields, with what is below them, are paid for by the fragments used up. */
  lemma {:induction false} LoadIsPaid(c: Context, definitions: seq<Fragment>, parent: string,
                                      selections: seq<Selection>, visited: set<string>)
    requires c.fragments == FragmentMap(definitions)
    ensures var (fields, after) := Collect(c, parent, selections, visited);
            Load(fields) + Unvisited(Written, definitions, after)
            <= Written(selections) + Unvisited(Written, definitions, visited)
    decreases c.fragments.Keys - visited, selections
  {
    if selections != [] {
      var first := CollectOne(c, parent, selections[0], visited);
      LoadOneIsPaid(c, definitions, parent, selections[0], visited);
      LoadIsPaid(c, definitions, parent, selections[1..], first.1);
      LoadConcat(first.0, Collect(c, parent, selections[1..], first.1).0);
    }
  }

  lemma {:induction false} LoadOneIsPaid(c: Context, definitions: seq<Fragment>, parent: string,
                                        selection: Selection, visited: set<string>)
    requires c.fragments == FragmentMap(definitions)
    ensures var (fields, after) := CollectOne(c, parent, selection, visited);
            Load(fields) + Unvisited(Written, definitions, after)
            <= WrittenOne(selection) + Unvisited(Written, definitions, visited)
    decreases c.fragments.Keys - visited, selection
  {
    match selection
    case Field(node) => assert [node][1..] == [];
    case Inline(_, _, body) => LoadIsPaid(c, definitions, parent, body, visited);
    case Spread(name, _) =>
      if name !in visited && name in c.fragments {
        var d := c.fragments[name];
        FragmentMapHolds(definitions, name);
        VisitOnce(Written, definitions, visited, d);
        LoadIsPaid(c, definitions, parent, d.selections, visited + {name});
      }
  }

  lemma {:induction false} WrittenConcat(a: seq<Selection>, b: seq<Selection>)
    ensures Written(a + b) == Written(a) + Written(b)
  {
    if a == [] {
      assert a + b == b;
    } else {
      assert (a + b)[1..] == a[1..] + b;
      WrittenConcat(a[1..], b);
    }
  }

  lemma {:induction false} MergedIsLoaded(group: seq<FieldNode>)
    ensures Written(Merged(group)) + |group| == Load(group)
  {
    if group != [] {
      WrittenConcat(group[0].selections, Merged(group[1..]));
      MergedIsLoaded(group[1..]);
    }
  }

  /** The measure of the merged selections of each group. */
  function Sizes(m: Measure, groups: seq<seq<FieldNode>>): (sizes: seq<nat>) {
    if groups == [] then [] else [m(Merged(groups[0]))] + Sizes(m, groups[1..])
  }

  /** Each group counts for itself and for its merged selections. */
  function Heads(sizes: seq<nat>): nat {
    if sizes == [] then 0 else 1 + sizes[0] + Heads(sizes[1..])
  }

  lemma {:induction false} KeysShareLoad(fields: seq<FieldNode>, key: string)
    ensures Load(WithKey(fields, key)) + Load(WithoutKey(fields, key)) == Load(fields)
  {
    if fields != [] {
      KeysShareLoad(fields[1..], key);
      LoadConcat([fields[0]], WithKey(fields[1..], key));
      LoadConcat([fields[0]], WithoutKey(fields[1..], key));
      assert [fields[0]][1..] == [];
    }
  }

  lemma {:induction false} GroupsShareLoad(fields: seq<FieldNode>)
    ensures Heads(Sizes(Written, Groups(fields))) <= Load(fields)
    decreases |fields|
  {
    if fields != [] {
      var key := fields[0].Key();
      var rest := Groups(WithoutKey(fields[1..], key));
      GroupsShareLoad(WithoutKey(fields[1..], key));
      KeysShareLoad(fields, key);
      MergedIsLoaded(WithKey(fields, key));
      assert fields[0] in WithKey(fields, key);
      assert Groups(fields)[0] == WithKey(fields, key) && Groups(fields)[1..] == rest;
    }
  }

  /** What one collection looks at, and what its groups hand on, is no more than what is written. */
  lemma OneLevel(c: Context, definitions: seq<Fragment>, parent: string, selections: seq<Selection>)
    requires c.fragments == FragmentMap(definitions)
    ensures Visits(c, parent, selections, {}) <= Written(selections) + WrittenIn(definitions)
    ensures Heads(Sizes(Written, Groups(Fields(c, parent, selections)))) <= Written(selections) + WrittenIn(definitions)
  {
    CollectionIsLinear(c, definitions, parent, selections);
    SizeIsWritten(selections);
    SizesAreWritten(definitions);
    LoadIsPaid(c, definitions, parent, selections, {});
    GroupsShareLoad(Fields(c, parent, selections));
  }

  lemma {:induction false} SizeIsWritten(selections: seq<Selection>)
    ensures Size(selections) <= Written(selections)
  {
    if selections != [] {
      match selections[0] {
        case Field(_) =>
        case Inline(_, _, body) => SizeIsWritten(body);
        case Spread(_, _) =>
      }
      SizeIsWritten(selections[1..]);
    }
  }

  lemma {:induction false} SizesAreWritten(definitions: seq<Fragment>)
    ensures Unvisited(Size, definitions, {}) <= WrittenIn(definitions)
  {
    if definitions != [] {
      SizeIsWritten(definitions[0].selections);
      SizesAreWritten(definitions[1..]);
    }
  }

  /* ---------- The bound ---------- */

  /** What a collection looks at, and what its groups hand on, is no more than its measure and `inside`. */
  ghost predicate Pays(c: Context, m: Measure, inside: nat) {
    forall parent, selections {:trigger Fields(c, parent, selections)} ::
      && Visits(c, parent, selections, {}) <= m(selections) + inside
      && Heads(Sizes(m, Groups(Fields(c, parent, selections)))) <= m(selections) + inside
  }

  lemma WrittenPays(c: Context, definitions: seq<Fragment>)
    requires c.fragments == FragmentMap(definitions)
    ensures Pays(c, Written, WrittenIn(definitions))
  {
    forall parent, selections
      ensures Visits(c, parent, selections, {}) <= Written(selections) + WrittenIn(definitions)
      ensures Heads(Sizes(Written, Groups(Fields(c, parent, selections))))
           <= Written(selections) + WrittenIn(definitions)
    {
      OneLevel(c, definitions, parent, selections);
    }
  }

  /** The first group, and the others if the walk gets there. */
  lemma FirstGroup(g: Gate, user: User, c: Context, parent: string, groups: seq<seq<FieldNode>>, root: bool,
                   height: nat)
    requires Acyclic(c.fragments) && AreLower(c, groups, height) && groups != []
    ensures groups[0] in groups && groups[0] != [] && AreLower(c, groups[1..], height)
    ensures WalkedGroups(g, user, c, parent, groups, root, height) ==
            WalkedGroup(g, user, c, parent, groups[0], root) +
            if CheckGroup(g, user, c, parent, groups[0], root)
            then WalkedGroups(g, user, c, parent, groups[1..], root, height)
            else 0
  {
    assert groups[0] in groups && forall group :: group in groups[1..] ==> group in groups;
  }

  /** What may be looked at in so many levels, given the size of the selections at the top. */
  type Limit = (nat, nat) -> nat

  function Room(limit: Limit, d: nat, n: nat): nat {
    limit(d, n)
  }

  /** What may be looked at below a group. */
  function BelowOne(limit: Limit, inside: nat, d: nat, size: nat): nat {
    if d == 0 then 0 else Room(limit, d - 1, size + inside)
  }

  function Total(limit: Limit, inside: nat, d: nat, sizes: seq<nat>): nat {
    if sizes == [] then 0 else BelowOne(limit, inside, d, sizes[0]) + Total(limit, inside, d, sizes[1..])
  }

  /** The limit for a level leaves room for the levels below all its groups. */
  ghost predicate Allows(limit: Limit, inside: nat) {
    forall d: nat, n: nat, sizes: seq<nat> {:trigger Total(limit, inside, d, sizes), Room(limit, d, n)} ::
      Heads(sizes) <= n ==> n + Total(limit, inside, d, sizes) <= Room(limit, d, n)
  }

  ghost predicate AreBounded(g: Gate, user: User, c: Context, m: Measure, parent: string,
                             groups: seq<seq<FieldNode>>, root: bool, limit: Limit, inside: nat, d: nat)
    requires Acyclic(c.fragments)
  {
    forall i :: 0 <= i < |groups| ==>
      groups[i] != [] &&
      WalkedGroup(g, user, c, parent, groups[i], root) <= BelowOne(limit, inside, d, m(Merged(groups[i])))
  }

  lemma {:induction false} GroupsAreBounded(g: Gate, user: User, c: Context, m: Measure, parent: string,
                                        groups: seq<seq<FieldNode>>, root: bool, height: nat, limit: Limit, inside: nat,
                                        d: nat)
    requires Acyclic(c.fragments) && AreLower(c, groups, height)
    requires AreBounded(g, user, c, m, parent, groups, root, limit, inside, d)
    ensures WalkedGroups(g, user, c, parent, groups, root, height) <= Total(limit, inside, d, Sizes(m, groups))
  {
    if groups != [] {
      FirstGroup(g, user, c, parent, groups, root, height);
      GroupsAreBounded(g, user, c, m, parent, groups[1..], root, height, limit, inside, d);
      assert Sizes(m, groups)[1..] == Sizes(m, groups[1..]);
    }
  }

  /** One level of the walk, given what its groups cost below. */
  lemma LevelIsBounded(g: Gate, user: User, c: Context, m: Measure, inside: nat, parent: string,
                       selections: seq<Selection>, root: bool, limit: Limit, d: nat)
    requires Acyclic(c.fragments) && Pays(c, m, inside) && Allows(limit, inside)
    requires AreBounded(g, user, c, m, parent, Groups(Fields(c, parent, selections)), root, limit, inside, d)
    ensures Walked(g, user, c, parent, selections, root) <= Room(limit, d, m(selections) + inside)
  {
    var groups := Groups(Fields(c, parent, selections));
    GroupsAreLower(c, parent, selections);
    GroupsAreBounded(g, user, c, m, parent, groups, root, Height(c, selections), limit, inside, d);
  }

  lemma {:induction false} WalkIsBounded(g: Gate, user: User, c: Context, m: Measure, inside: nat, parent: string,
                                        selections: seq<Selection>, root: bool, limit: Limit, d: nat, n: nat)
    requires Acyclic(c.fragments) && Pays(c, m, inside) && Allows(limit, inside)
    requires !HasChain(g, c.schema, parent, root, d + 1) && n == m(selections) + inside
    ensures Walked(g, user, c, parent, selections, root) <= Room(limit, d, n)
    decreases d, 2
  {
    var groups := Groups(Fields(c, parent, selections));
    assert forall i :: 0 <= i < |groups| ==> groups[i] in groups;
    GroupsAreBelow(g, user, c, m, inside, parent, groups, root, limit, d);
    LevelIsBounded(g, user, c, m, inside, parent, selections, root, limit, d);
  }

  lemma {:induction false} GroupsAreBelow(g: Gate, user: User, c: Context, m: Measure, inside: nat, parent: string,
                                        groups: seq<seq<FieldNode>>, root: bool, limit: Limit, d: nat)
    requires Acyclic(c.fragments) && Pays(c, m, inside) && Allows(limit, inside)
    requires !HasChain(g, c.schema, parent, root, d + 1)
    requires forall i :: 0 <= i < |groups| ==> groups[i] != []
    ensures AreBounded(g, user, c, m, parent, groups, root, limit, inside, d)
    decreases d, 1
  {
    forall i | 0 <= i < |groups|
      ensures WalkedGroup(g, user, c, parent, groups[i], root) <= BelowOne(limit, inside, d, m(Merged(groups[i])))
    {
      GroupIsBelow(g, user, c, m, inside, parent, groups[i], root, limit, d);
    }
  }

  lemma {:induction false} GroupIsBelow(g: Gate, user: User, c: Context, m: Measure, inside: nat, parent: string,
                                        group: seq<FieldNode>, root: bool, limit: Limit, d: nat)
    requires Acyclic(c.fragments) && group != [] && Pays(c, m, inside) && Allows(limit, inside)
    requires !HasChain(g, c.schema, parent, root, d + 1)
    ensures WalkedGroup(g, user, c, parent, group, root) <= BelowOne(limit, inside, d, m(Merged(group)))
    decreases d, 0
  {
    if Enters(g, user, c, parent, group, root) {
      EntersFollows(g, user, c, parent, group, root, d);
      var child := c.schema.FieldsOf(parent)[group[0].name].typeName;
      WalkIsBounded(g, user, c, m, inside, child, Merged(group), false, limit, d - 1, m(Merged(group)) + inside);
    }
    WalkedBelow(g, user, c, parent, group, root, BelowOne(limit, inside, d, m(Merged(group))));
  }

  lemma WalkedBelow(g: Gate, user: User, c: Context, parent: string, group: seq<FieldNode>, root: bool, bound: nat)
    requires Acyclic(c.fragments) && group != []
    requires Enters(g, user, c, parent, group, root) ==>
               Walked(g, user, c, c.schema.FieldsOf(parent)[group[0].name].typeName, Merged(group), false) <= bound
    ensures WalkedGroup(g, user, c, parent, group, root) <= bound
  {
  }

  /** If no chain of more than `d` listed fields starts at `parent`, the cost is within the limit for `d` levels. */
  lemma WalkIsLimited(g: Gate, user: User, c: Context, definitions: seq<Fragment>, parent: string,
                      selections: seq<Selection>, root: bool, limit: Limit, d: nat, most: nat)
    requires c.fragments == FragmentMap(definitions) && Acyclic(c.fragments)
    requires !HasChain(g, c.schema, parent, root, d + 1) && Allows(limit, WrittenIn(definitions))
    requires Room(limit, d, DocumentSize(definitions, selections)) <= most
    ensures Walked(g, user, c, parent, selections, root) <= most
  {
    var inside := WrittenIn(definitions);
    WrittenPays(c, definitions);
    WalkIsBounded(g, user, c, Written, inside, parent, selections, root, limit, d,
                  DocumentSize(definitions, selections));
  }

  /* ---------- Powers are limits ---------- */

  function PowerLimit(inside: nat): Limit {
    (d: nat, n: nat) => Power(inside + 2, d) * n
  }

  /** What a level may cost for each selection handed down to it. */
  function Factor(inside: nat, d: nat): nat {
    if d == 0 then 0 else Power(inside + 2, d - 1) * (inside + 1)
  }

  lemma OneGroup(inside: nat, d: nat, size: nat)
    ensures BelowOne(PowerLimit(inside), inside, d, size) <= Factor(inside, d) * (1 + size)
  {
    if d > 0 {
      HandOn(Power(inside + 2, d - 1), inside, size);
    }
  }

  lemma HandOn(power: nat, d: nat, size: nat)
    ensures power * (size + d) <= (power * (d + 1)) * (1 + size)
  {
    assert (power * (d + 1)) * (1 + size) == power * ((d + 1) * (1 + size));
    assert (d + 1) * (1 + size) == size + d + 1 + d * size;
    ProductGrows(power, power, size + d, (d + 1) * (1 + size));
  }

  lemma {:induction false} AllGroups(inside: nat, d: nat, sizes: seq<nat>)
    ensures Total(PowerLimit(inside), inside, d, sizes) <= Factor(inside, d) * Heads(sizes)
  {
    if sizes != [] {
      OneGroup(inside, d, sizes[0]);
      AllGroups(inside, d, sizes[1..]);
      AddBounds(Factor(inside, d), BelowOne(PowerLimit(inside), inside, d, sizes[0]), 1 + sizes[0],
                Total(PowerLimit(inside), inside, d, sizes[1..]), Heads(sizes[1..]));
    }
  }

  lemma AddBounds(factor: nat, x: nat, a: nat, y: nat, b: nat)
    requires x <= factor * a && y <= factor * b
    ensures x + y <= factor * (a + b)
  {
  }

  lemma OneMoreLevel(power: nat, d: nat, n: nat)
    requires power > 0
    ensures n + (power * (d + 1)) * n <= ((d + 2) * power) * n
  {
    assert n + (power * (d + 1)) * n == (1 + power * (d + 1)) * n;
    assert (d + 2) * power == power + power * (d + 1);
    ProductGrows(1 + power * (d + 1), (d + 2) * power, n, n);
  }

  lemma LevelsAddUp(inside: nat, d: nat, n: nat)
    ensures n + Factor(inside, d) * n <= PowerLimit(inside)(d, n)
  {
    if d > 0 {
      PowerIsPositive(inside + 2, d - 1);
      OneMoreLevel(Power(inside + 2, d - 1), inside, n);
    }
  }

  lemma PowersAllow(inside: nat)
    ensures Allows(PowerLimit(inside), inside)
  {
    var limit := PowerLimit(inside);
    forall d: nat, n: nat, sizes: seq<nat> | Heads(sizes) <= n
      ensures n + Total(limit, inside, d, sizes) <= Room(limit, d, n)
    {
      AllGroups(inside, d, sizes);
      ProductGrows(Factor(inside, d), Factor(inside, d), Heads(sizes), n);
      LevelsAddUp(inside, d, n);
    }
  }

  lemma LimitFor(inside: nat, d: nat, n: nat) returns (limit: Limit, most: nat)
    ensures Allows(limit, inside) && Room(limit, d, n) == most == Power(inside + 2, d) * n
  {
    PowersAllow(inside);
    limit, most := PowerLimit(inside), Power(inside + 2, d) * n;
  }

  /**
   If no chain of more than `d` listed fields starts at `parent`, the cost is at most the size of the
   document times the `d`-th power of the size of its fragments (and two).
   */
  lemma WalkIsPolynomial(g: Gate, user: User, c: Context, definitions: seq<Fragment>, parent: string,
                         selections: seq<Selection>, root: bool, d: nat)
    requires c.fragments == FragmentMap(definitions) && Acyclic(c.fragments)
    requires !HasChain(g, c.schema, parent, root, d + 1)
    ensures Walked(g, user, c, parent, selections, root)
         <= Power(WrittenIn(definitions) + 2, d) * DocumentSize(definitions, selections)
  {
    var limit, most := LimitFor(WrittenIn(definitions), d, DocumentSize(definitions, selections));
    WalkIsLimited(g, user, c, definitions, parent, selections, root, limit, d, most);
  }
}
