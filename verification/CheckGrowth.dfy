/**
 When the walk is polynomial in the document: exactly if the listed fields form no cycle. Along a
 chain of listed fields, fragments that select the next one below two aliases are accepted, and
 each of them doubles the cost.
 */
module CheckGrowth {
  import opened Wrappers
  import opened Numbers
  import opened GraphQL
  import opened Fragments
  import opened AutomationCredentials
  import opened Automation
  import opened CollectionCost
  import opened CheckCost

  /* ---------- Chains of listed fields ---------- */

  /** The fields of the ladder are listed, and each leads from its type to the one below. */
  ghost predicate Climbs(g: Gate, schema: Schema, l: Ladder, n: nat) {
    forall k {:trigger l.field(k)} :: 0 < k <= n ==>
      Follows(g, schema, l.on(k), l.field(k), false) &&
      schema.FieldsOf(l.on(k))[l.field(k)].typeName == l.on(k - 1)
  }

  lemma {:induction false} LadderFrom(g: Gate, schema: Schema, parent: string, n: nat) returns (l: Ladder)
    requires HasChain(g, schema, parent, false, n)
    ensures l.nested && l.on(n) == parent && Climbs(g, schema, l, n)
    decreases n
  {
    if n == 0 {
      l := Ladder(_ => parent, _ => "", true);
    } else {
      var name := FirstOfChain(g, schema, parent, false, n);
      var below := LadderFrom(g, schema, schema.FieldsOf(parent)[name].typeName, n - 1);
      l := Ladder((k: nat) => if k < n then below.on(k) else parent,
                  (k: nat) => if k < n then below.field(k) else name, true);
      forall k: nat {:trigger l.field(k)} | 0 < k <= n
        ensures Follows(g, schema, l.on(k), l.field(k), false)
        ensures schema.FieldsOf(l.on(k))[l.field(k)].typeName == l.on(k - 1)
      {
        if k < n {
          assert l.field(k) == below.field(k);
        }
      }
    }
  }

  /* ---------- One link ---------- */

  /** A field with nothing to merge with. */
  lemma MergedAlone(node: FieldNode)
    ensures Merged([node]) == node.selections
  {
    assert [node][1..] == [] && Merged([]) == [] && node.selections + [] == node.selections;
  }

  lemma {:induction false} CollectPlain(c: Context, on: string, selections: seq<Selection>, visited: set<string>,
                                        nodes: seq<FieldNode>)
    requires |selections| == |nodes|
    requires forall i :: 0 <= i < |nodes| ==> selections[i] == Field(nodes[i]) && nodes[i].directives == PLAIN
    ensures Collect(c, on, selections, visited) == (nodes, visited)
    ensures Visits(c, on, selections, visited) == |nodes|
  {
    if nodes != [] {
      CollectPlain(c, on, selections[1..], visited, nodes[1..]);
      assert [nodes[0]] + nodes[1..] == nodes;
    }
  }

  lemma FieldsOfSpread(c: Context, on: string, f: Fragment, nodes: seq<FieldNode>)
    requires f.name in c.fragments && c.fragments[f.name] == f && f.on == on
    requires |nodes| <= 2 && |f.selections| == |nodes|
    requires forall i :: 0 <= i < |nodes| ==> f.selections[i] == Field(nodes[i]) && nodes[i].directives == PLAIN
    ensures Fields(c, on, [Spread(f.name, PLAIN)]) == nodes
    ensures Visits(c, on, [Spread(f.name, PLAIN)], {}) == 1 + |nodes|
  {
    var spread := [Spread(f.name, PLAIN)];
    assert spread[1..] == [];
    CollectPlain(c, on, f.selections, {f.name}, nodes);
    assert {} + {f.name} == {f.name} && nodes + [] == nodes;
    assert Included(PLAIN, c.variables) && Applies(c, on, f.name);
    var first := CollectOne(c, on, spread[0], {});
    assert first == (nodes, {f.name});
    assert Collect(c, on, [], first.1) == ([], first.1);
    assert Collect(c, on, spread, {}) == (first.0 + [], first.1);
    assert VisitsOne(c, on, spread[0], {}) == 1 + |nodes| && Visits(c, on, [], first.1) == 0;
  }

  lemma GroupsOfTwo(a: FieldNode, b: FieldNode)
    requires a.Key() != b.Key()
    ensures Groups([a]) == [[a]] && Groups([a, b]) == [[a], [b]]
  {
    assert [a][1..] == [] && [b][1..] == [] && [a, b][1..] == [b];
    assert WithKey([a], a.Key()) == [a] && WithKey([b], b.Key()) == [b];
    assert WithKey([b], a.Key()) == [] && WithKey([a, b], a.Key()) == [a];
    assert WithoutKey([b], a.Key()) == [b];
    assert Groups([b]) == [[b]];
    assert Groups([]) == [];
  }

  lemma CostOfOne(g: Gate, user: User, c: Context, parent: string, selections: seq<Selection>, a: FieldNode,
                  root: bool)
    requires Acyclic(c.fragments) && Groups(Fields(c, parent, selections)) == [[a]]
    ensures Check(g, user, c, parent, selections, root) == CheckGroup(g, user, c, parent, [a], root)
    ensures Walked(g, user, c, parent, selections, root) ==
            Visits(c, parent, selections, {}) + WalkedGroup(g, user, c, parent, [a], root)
  {
    var groups := [[a]];
    assert groups[0] == [a] && groups[1..] == [];
    GroupsAreLower(c, parent, selections);
    FirstGroup(g, user, c, parent, groups, root, Height(c, selections));
  }

  lemma CostOfTwo(g: Gate, user: User, c: Context, parent: string, selections: seq<Selection>, a: FieldNode,
                  b: FieldNode)
    requires Acyclic(c.fragments) && Groups(Fields(c, parent, selections)) == [[a], [b]]
    requires CheckGroup(g, user, c, parent, [a], false) && CheckGroup(g, user, c, parent, [b], false)
    ensures Check(g, user, c, parent, selections, false)
    ensures Walked(g, user, c, parent, selections, false) ==
            Visits(c, parent, selections, {}) +
            WalkedGroup(g, user, c, parent, [a], false) + WalkedGroup(g, user, c, parent, [b], false)
  {
    var groups := [[a], [b]];
    var height := Height(c, selections);
    assert groups[0] == [a] && groups[1] == [b] && groups[1..] == [[b]] && groups[1..][1..] == [];
    GroupsAreLower(c, parent, selections);
    FirstGroup(g, user, c, parent, groups, false, height);
    FirstGroup(g, user, c, parent, groups[1..], false, height);
  }

  /** A permitted field with selections, alone in its group, passes the walk on to them. */
  lemma PassesOn(g: Gate, user: User, c: Context, parent: string, node: FieldNode, root: bool)
    requires Acyclic(c.fragments) && node.selections != [] && Follows(g, c.schema, parent, node.name, root)
    requires root ==>
               RootAllowed(g, user, parent, node.name,
                           ArgumentValues(c.schema.FieldsOf(parent)[node.name], node, c.variables))
    ensures var child := c.schema.FieldsOf(parent)[node.name].typeName;
            && CheckGroup(g, user, c, parent, [node], root) == Check(g, user, c, child, node.selections, false)
            && WalkedGroup(g, user, c, parent, [node], root) == Walked(g, user, c, child, node.selections, false)
  {
    MergedAlone(node);
    assert [node][0] == node && node in [node];
  }

  predicate HasLink(c: Context, l: Ladder, k: nat) {
    ChainName(k) in c.fragments && c.fragments[ChainName(k)] == ChainFragment(l, k)
  }

  /** The last link selects one `__typename`. */
  lemma LastLink(g: Gate, user: User, c: Context, l: Ladder)
    requires Acyclic(c.fragments) && HasLink(c, l, 0)
    ensures Check(g, user, c, l.on(0), ChainSelections(0), false)
    ensures Walked(g, user, c, l.on(0), ChainSelections(0), false) == 2
  {
    FieldsOfSpread(c, l.on(0), ChainFragment(l, 0), [LEAF.node]);
    GroupsOfTwo(LEAF.node, LEAF.node.(alias := Some("other")));
    CostOfOne(g, user, c, l.on(0), ChainSelections(0), LEAF.node, false);
  }

  /** Every other link: two fields, and all of the next link below each of them. */
  lemma NextLink(g: Gate, user: User, c: Context, l: Ladder, k: nat)
    requires Acyclic(c.fragments) && l.nested && k > 0 && HasLink(c, l, k)
    requires Follows(g, c.schema, l.on(k), l.field(k), false)
    requires c.schema.FieldsOf(l.on(k))[l.field(k)].typeName == l.on(k - 1)
    requires Check(g, user, c, l.on(k - 1), ChainSelections(k - 1), false)
    ensures Check(g, user, c, l.on(k), ChainSelections(k), false)
    ensures Walked(g, user, c, l.on(k), ChainSelections(k), false) ==
            3 + 2 * Walked(g, user, c, l.on(k - 1), ChainSelections(k - 1), false)
  {
    var spread := Spread(ChainName(k - 1), PLAIN);
    var a, b := Below("a", l.field(k), spread).node, Below("b", l.field(k), spread).node;
    FieldsOfSpread(c, l.on(k), ChainFragment(l, k), [a, b]);
    GroupsOfTwo(a, b);
    PassesOn(g, user, c, l.on(k), a, false);
    PassesOn(g, user, c, l.on(k), b, false);
    CostOfTwo(g, user, c, l.on(k), ChainSelections(k), a, b);
  }

  /* ---------- The whole chain ---------- */

  lemma {:induction false} ChainCosts(g: Gate, user: User, c: Context, l: Ladder, n: nat)
    requires Acyclic(c.fragments) && l.nested && Climbs(g, c.schema, l, n)
    requires forall k :: 0 <= k <= n ==> HasLink(c, l, k)
    ensures Check(g, user, c, l.on(n), ChainSelections(n), false)
    ensures Walked(g, user, c, l.on(n), ChainSelections(n), false) + 3 == 5 * Power(2, n)
  {
    if n == 0 {
      LastLink(g, user, c, l);
    } else {
      ChainCosts(g, user, c, l, n - 1);
      assert Follows(g, c.schema, l.on(n), l.field(n), false);
      NextLink(g, user, c, l, n);
    }
  }

  lemma WrittenInMore(definitions: seq<Fragment>, d: Fragment)
    ensures WrittenIn(definitions + [d]) == WrittenIn(definitions) + Written(d.selections)
  {
    UnvisitedConcat(Written, definitions, [d]);
    assert [d][1..] == [] && Unvisited(Written, [], {}) == 0;
  }

  lemma {:induction false} ChainIsWritten(l: Ladder, n: nat)
    requires l.nested
    ensures WrittenIn(Chain(l, n)) == 4 * n + 1
  {
    LinkIsWritten(l, n);
    if n == 0 {
      WrittenInMore([], ChainFragment(l, 0));
      assert Chain(l, 0) == [] + [ChainFragment(l, 0)];
    } else {
      ChainIsWritten(l, n - 1);
      WrittenInMore(Chain(l, n - 1), ChainFragment(l, n));
    }
  }

  lemma LinkIsWritten(l: Ladder, k: nat)
    requires l.nested
    ensures Written(ChainFragment(l, k).selections) == if k == 0 then 1 else 4
    ensures Written(ChainSelections(k)) == 1
  {
    var s := ChainFragment(l, k).selections;
    assert ChainSelections(k)[1..] == [];
    if k == 0 {
      assert s == [LEAF] && s[1..] == [] && WrittenOne(LEAF) == 1 && Written([]) == 0;
    } else {
      var spread := Spread(ChainName(k - 1), PLAIN);
      assert [spread][1..] == [] && s[1..] == [s[1]] && [s[1]][1..] == [];
      assert Written([spread]) == 1 && WrittenOne(s[0]) == 2 && WrittenOne(s[1]) == 2;
      assert Written([s[1]]) == 2 && Written(s) == 4;
    }
  }

  /**
   Along a chain of `n` listed fields, a document of 4n + 2 selections is accepted, whoever asks, and
   has the walk look at 5 * 2^n - 3 selections.
   */
  lemma WalkIsExponential(g: Gate, user: User, c: Context, l: Ladder, n: nat)
    requires l.nested && Climbs(g, c.schema, l, n) && c.fragments == FragmentMap(Chain(l, n))
    ensures Acyclic(c.fragments)
    ensures DocumentSize(Chain(l, n), ChainSelections(n)) == 4 * n + 2
    ensures Check(g, user, c, l.on(n), ChainSelections(n), false)
    ensures Walked(g, user, c, l.on(n), ChainSelections(n), false) + 3 == 5 * Power(2, n)
  {
    ChainIsAcyclic(l, n);
    ChainMapIs(l, n);
    forall k | 0 <= k <= n ensures HasLink(c, l, k) {
      ChainLookup(l, n, k);
    }
    ChainCosts(g, user, c, l, n);
    ChainIsWritten(l, n);
    LinkIsWritten(l, n);
  }

  /** An operation that selects such a chain below a permitted root field costs one more. */
  lemma RootPassesOn(g: Gate, user: User, c: Context, parent: string, node: FieldNode)
    requires Acyclic(c.fragments) && node.directives == PLAIN && node.selections != []
    requires Follows(g, c.schema, parent, node.name, true)
    requires RootAllowed(g, user, parent, node.name,
                         ArgumentValues(c.schema.FieldsOf(parent)[node.name], node, c.variables))
    ensures var child := c.schema.FieldsOf(parent)[node.name].typeName;
            && Check(g, user, c, parent, [Field(node)], true) == Check(g, user, c, child, node.selections, false)
            && Walked(g, user, c, parent, [Field(node)], true) ==
               1 + Walked(g, user, c, child, node.selections, false)
  {
    CollectPlain(c, parent, [Field(node)], {}, [node]);
    GroupsOfTwo(node, node.(alias := Some(node.Key() + "'")));
    PassesOn(g, user, c, parent, node, true);
    CostOfOne(g, user, c, parent, [Field(node)], node, true);
  }

  /* ---------- Exactly when the walk is polynomial ---------- */

  /** A bound on the cost, given the size of the document. */
  type Bound = nat -> nat

  function At(bound: Bound, size: nat): nat {
    bound(size)
  }

  ghost predicate StaysWithin(g: Gate, user: User, c: Context, parent: string, definitions: seq<Fragment>,
                              selections: seq<Selection>, bound: Bound)
    requires Acyclic(c.fragments)
  {
    Walked(g, user, c, parent, selections, false) <= At(bound, DocumentSize(definitions, selections))
  }

  /** The bound holds of every document. */
  ghost predicate IsBound(g: Gate, user: User, schema: Schema, parent: string, bound: Bound) {
    forall definitions, selections, variables | Acyclic(FragmentMap(definitions)) ::
      StaysWithin(g, user, Context(schema, FragmentMap(definitions), variables), parent, definitions, selections, bound)
  }

  /** Every polynomial is below one of these. */
  function PolynomialOf(d: nat): Bound {
    (size: nat) => Power(size + 2, d)
  }

  /** `m` listed fields lead from one type to the other. */
  ghost predicate Reaches(g: Gate, schema: Schema, from: string, to: string, m: nat)
    decreases m
  {
    if m == 0 then from == to
    else exists name :: Follows(g, schema, from, name, false) &&
                        Reaches(g, schema, schema.FieldsOf(from)[name].typeName, to, m - 1)
  }

  /** The listed fields lead from `parent` to a type, and from there back to it. */
  ghost predicate HasCycle(g: Gate, schema: Schema, parent: string) {
    exists t, m: nat, around: nat :: Reaches(g, schema, parent, t, m) && around > 0 && Reaches(g, schema, t, t, around)
  }

  lemma {:induction false} ChainBehind(g: Gate, schema: Schema, from: string, to: string, m: nat, n: nat)
    requires Reaches(g, schema, from, to, m) && HasChain(g, schema, to, false, n)
    ensures HasChain(g, schema, from, false, m + n)
    decreases m
  {
    if m > 0 {
      var name :| Follows(g, schema, from, name, false) &&
                  Reaches(g, schema, schema.FieldsOf(from)[name].typeName, to, m - 1);
      ChainBehind(g, schema, schema.FieldsOf(from)[name].typeName, to, m - 1, n);
    }
  }

  lemma {:induction false} ShorterChain(g: Gate, schema: Schema, parent: string, n: nat, less: nat)
    requires HasChain(g, schema, parent, false, n) && less <= n
    ensures HasChain(g, schema, parent, false, less)
    decreases n
  {
    if less > 0 {
      var name := FirstOfChain(g, schema, parent, false, n);
      ShorterChain(g, schema, schema.FieldsOf(parent)[name].typeName, n - 1, less - 1);
    }
  }

  /** Around a cycle there are chains of every length. */
  lemma {:induction false} CycleHasChains(g: Gate, schema: Schema, t: string, around: nat, n: nat)
    requires around > 0 && Reaches(g, schema, t, t, around)
    ensures HasChain(g, schema, t, false, n)
    decreases n
  {
    if n > 0 {
      CycleHasChains(g, schema, t, around, n - 1);
      ChainBehind(g, schema, t, t, around, n - 1);
      ShorterChain(g, schema, t, around + n - 1, n);
    }
  }

  /** The part of a ladder between two of its types. */
  lemma {:induction false} LadderReaches(g: Gate, schema: Schema, l: Ladder, n: nat, i: nat, j: nat)
    requires Climbs(g, schema, l, n) && i <= j <= n
    ensures Reaches(g, schema, l.on(j), l.on(i), j - i)
    decreases j
  {
    if i < j {
      assert Follows(g, schema, l.on(j), l.field(j), false);
      LadderReaches(g, schema, l, n, i, j - 1);
    }
  }

  /** More names than there are in a finite set repeat. */
  lemma {:induction false} NamesRepeat(names: nat -> string, n: nat, all: set<string>) returns (i: nat, j: nat)
    requires forall k :: 0 < k <= n ==> names(k) in all
    requires n > |all|
    ensures 0 < i < j <= n && names(i) == names(j)
    decreases n
  {
    if k :| 0 < k < n && names(k) == names(n) {
      i, j := k, n;
    } else {
      var rest := all - {names(n)};
      assert all == rest + {names(n)};
      i, j := NamesRepeat(names, n - 1, rest);
    }
  }

  /** A chain longer than the table has types goes around a cycle. */
  lemma LongChainHasCycle(g: Gate, schema: Schema, parent: string, n: nat)
    requires HasChain(g, schema, parent, false, n) && n > |g.tables.objectFields|
    ensures HasCycle(g, schema, parent)
  {
    var l := LadderFrom(g, schema, parent, n);
    forall k: nat | 0 < k <= n ensures l.on(k) in g.tables.objectFields.Keys {
      assert Follows(g, schema, l.on(k), l.field(k), false);
    }
    var i, j := NamesRepeat(l.on, n, g.tables.objectFields.Keys);
    LadderReaches(g, schema, l, n, i, j);
    LadderReaches(g, schema, l, n, j, n);
  }

  /** Without a cycle, no chain is longer than the table has types. */
  lemma NoLongChain(g: Gate, schema: Schema, parent: string)
    requires !HasCycle(g, schema, parent)
    ensures !HasChain(g, schema, parent, false, |g.tables.objectFields| + 1)
  {
    if HasChain(g, schema, parent, false, |g.tables.objectFields| + 1) {
      LongChainHasCycle(g, schema, parent, |g.tables.objectFields| + 1);
    }
  }

  lemma DocumentWithoutCycle(g: Gate, user: User, c: Context, parent: string, definitions: seq<Fragment>,
                             selections: seq<Selection>, limit: Limit, bound: Bound)
    requires c.fragments == FragmentMap(definitions) && Acyclic(c.fragments) && !HasCycle(g, c.schema, parent)
    requires Allows(limit, WrittenIn(definitions))
    requires IsWithin(limit, |g.tables.objectFields|, DocumentSize(definitions, selections), bound)
    ensures StaysWithin(g, user, c, parent, definitions, selections, bound)
  {
    NoLongChain(g, c.schema, parent);
    WalkIsLimited(g, user, c, definitions, parent, selections, false, limit, |g.tables.objectFields|,
                  At(bound, DocumentSize(definitions, selections)));
  }

  /** The limit for `d` levels is within a bound on the size. */
  predicate IsWithin(limit: Limit, d: nat, size: nat, bound: Bound) {
    Room(limit, d, size) <= At(bound, size)
  }

  /** There is a limit for each size of the fragments, and it is within the bound for all larger documents. */
  ghost predicate AreWithin(limits: nat -> Limit, d: nat, bound: Bound) {
    && (forall inside: nat :: Allows(limits(inside), inside))
    && forall inside: nat, size: nat :: inside <= size ==> IsWithin(limits(inside), d, size, bound)
  }

  lemma NoCycleIsBound(g: Gate, user: User, schema: Schema, parent: string, limits: nat -> Limit, bound: Bound)
    requires !HasCycle(g, schema, parent) && AreWithin(limits, |g.tables.objectFields|, bound)
    ensures IsBound(g, user, schema, parent, bound)
  {
    forall definitions, selections, variables | Acyclic(FragmentMap(definitions))
      ensures StaysWithin(g, user, Context(schema, FragmentMap(definitions), variables), parent, definitions,
                          selections, bound)
    {
      DocumentWithoutCycle(g, user, Context(schema, FragmentMap(definitions), variables), parent, definitions,
                           selections, limits(WrittenIn(definitions)), bound);
    }
  }

  lemma PowersAreWithin(d: nat) returns (limits: nat -> Limit)
    ensures AreWithin(limits, d, PolynomialOf(d + 1))
  {
    var bound := PolynomialOf(d + 1);
    limits := PowerLimit;
    forall inside: nat ensures Allows(limits(inside), inside) {
      PowersAllow(inside);
    }
    forall inside: nat, size: nat | inside <= size ensures IsWithin(limits(inside), d, size, bound) {
      PowerGrows(inside + 2, size + 2, d);
      ProductGrows(size, size + 2, Power(inside + 2, d), Power(size + 2, d));
    }
  }

  /** With a cycle there are documents along chains of every length. */
  lemma CostWithCycle(g: Gate, user: User, schema: Schema, parent: string, n: nat)
    returns (definitions: seq<Fragment>)
    requires HasCycle(g, schema, parent)
    ensures Acyclic(FragmentMap(definitions))
    ensures DocumentSize(definitions, ChainSelections(n)) == 4 * n + 2
    ensures Walked(g, user, Context(schema, FragmentMap(definitions), map[]), parent, ChainSelections(n), false) + 3
         == 5 * Power(2, n)
  {
    var t, m: nat, around: nat :| Reaches(g, schema, parent, t, m) && around > 0 && Reaches(g, schema, t, t, around);
    CycleHasChains(g, schema, t, around, n);
    ChainBehind(g, schema, parent, t, m, n);
    ShorterChain(g, schema, parent, m + n, n);
    var l := LadderFrom(g, schema, parent, n);
    definitions := Chain(l, n);
    WalkIsExponential(g, user, Context(schema, FragmentMap(definitions), map[]), l, n);
  }

  /** No bound that is below this exponential anywhere holds. */
  lemma CycleExceeds(g: Gate, user: User, schema: Schema, parent: string, n: nat, bound: Bound)
    requires HasCycle(g, schema, parent) && At(bound, 4 * n + 2) + 3 < 5 * Power(2, n)
    ensures !IsBound(g, user, schema, parent, bound)
  {
    var definitions := CostWithCycle(g, user, schema, parent, n);
    var c := Context(schema, FragmentMap(definitions), map[]);
    assert Walked(g, user, c, parent, ChainSelections(n), false) > At(bound, 4 * n + 2);
    assert !StaysWithin(g, user, c, parent, definitions, ChainSelections(n), bound);
  }

  lemma PolynomialIsBelow(d: nat)
    ensures PolynomialOf(d)(4 * Power(2, d + 4) + 2) + 3 < 5 * Power(2, Power(2, d + 4))
  {
    PowersPassPolynomials(d);
    PowerIsPositive(2, Power(2, d + 4));
  }

  /** The walk below a type is polynomial in the document if and only if the listed fields form no cycle there. */
  lemma PolynomialExactly(g: Gate, user: User, schema: Schema, parent: string)
    ensures (exists d :: IsBound(g, user, schema, parent, PolynomialOf(d))) <==> !HasCycle(g, schema, parent)
  {
    if HasCycle(g, schema, parent) {
      forall d: nat ensures !IsBound(g, user, schema, parent, PolynomialOf(d)) {
        PolynomialIsBelow(d);
        CycleExceeds(g, user, schema, parent, Power(2, d + 4), PolynomialOf(d));
      }
    } else {
      var limits := PowersAreWithin(|g.tables.objectFields|);
      NoCycleIsBound(g, user, schema, parent, limits, PolynomialOf(|g.tables.objectFields| + 1));
    }
  }
}
