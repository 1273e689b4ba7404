/**
 What field collection costs: at most as many visits as the document has selections, where full
 inlining can be exponential.
 */
module CollectionCost {
  import opened Wrappers
  import opened Numbers
  import opened GraphQL
  import opened Fragments
  import opened Inlining

  /* ---------- The cost of one collection ---------- */

  /** How many selections one call of `Collect` looks at. */
  function Visits(c: Context, parent: string, selections: seq<Selection>, visited: set<string>): nat
    decreases c.fragments.Keys - visited, selections
  {
    if selections == [] then 0
    else VisitsOne(c, parent, selections[0], visited) +
         Visits(c, parent, selections[1..], CollectOne(c, parent, selections[0], visited).1)
  }

  function VisitsOne(c: Context, parent: string, selection: Selection, visited: set<string>): nat
    decreases c.fragments.Keys - visited, selection
  {
    match selection
    case Field(_) => 1
    case Inline(on, directives, body) =>
      if !Included(directives, c.variables) || !c.schema.Matches(on, parent) then 1
      else 1 + Visits(c, parent, body, visited)
    case Spread(name, directives) =>
      if name in visited || !Included(directives, c.variables) || !Applies(c, parent, name) then 1
      else 1 + Visits(c, parent, c.fragments[name].selections, visited + {name})
  }

  /** Selections written in a selection set, without those below its fields. */
  function Size(selections: seq<Selection>): nat {
    if selections == [] then 0 else SizeOne(selections[0]) + Size(selections[1..])
  }

  function SizeOne(selection: Selection): nat {
    match selection
    case Field(_) => 1
    case Inline(_, _, body) => 1 + Size(body)
    case Spread(_, _) => 1
  }

  /** What a selection set costs by some measure: `Size`, say. */
  type Measure = seq<Selection> -> nat

  /** The measure of the fragment definitions whose name is not in `visited`. */
  function Unvisited(m: Measure, definitions: seq<Fragment>, visited: set<string>): nat {
    if definitions == [] then 0
    else (if definitions[0].name in visited then 0 else m(definitions[0].selections)) +
         Unvisited(m, definitions[1..], visited)
  }

  lemma {:induction false} VisitOnce(m: Measure, definitions: seq<Fragment>, visited: set<string>, d: Fragment)
    requires d in definitions && d.name !in visited
    ensures Unvisited(m, definitions, visited + {d.name}) + m(d.selections) <= Unvisited(m, definitions, visited)
  {
    if d == definitions[0] {
      UnvisitedShrinks(m, definitions[1..], visited, d.name);
    } else {
      VisitOnce(m, definitions[1..], visited, d);
    }
  }

  lemma {:induction false} UnvisitedShrinks(m: Measure, definitions: seq<Fragment>, visited: set<string>, name: string)
    ensures Unvisited(m, definitions, visited + {name}) <= Unvisited(m, definitions, visited)
  {
    if definitions != [] {
      UnvisitedShrinks(m, definitions[1..], visited, name);
    }
  }

  lemma {:induction false} FragmentMapHolds(definitions: seq<Fragment>, name: string)
    requires name in FragmentMap(definitions)
    ensures FragmentMap(definitions)[name] in definitions && FragmentMap(definitions)[name].name == name
  {
    var last := definitions[|definitions| - 1];
    if name != last.name {
      FragmentMapHolds(definitions[..|definitions| - 1], name);
    }
  }

  /** Visits are paid for by the selections written in the fragments they use up. */
  lemma {:induction false} VisitsArePaid(c: Context, definitions: seq<Fragment>, parent: string,
                                        selections: seq<Selection>, visited: set<string>)
    requires c.fragments == FragmentMap(definitions)
    ensures Visits(c, parent, selections, visited) +
            Unvisited(Size, definitions, Collect(c, parent, selections, visited).1)
         <= Size(selections) + Unvisited(Size, definitions, visited)
    decreases c.fragments.Keys - visited, selections
  {
    if selections != [] {
      VisitsOneArePaid(c, definitions, parent, selections[0], visited);
      VisitsArePaid(c, definitions, parent, selections[1..], CollectOne(c, parent, selections[0], visited).1);
    }
  }

  lemma {:induction false} VisitsOneArePaid(c: Context, definitions: seq<Fragment>, parent: string,
                                        selection: Selection, visited: set<string>)
    requires c.fragments == FragmentMap(definitions)
    ensures VisitsOne(c, parent, selection, visited) +
            Unvisited(Size, definitions, CollectOne(c, parent, selection, visited).1)
         <= SizeOne(selection) + Unvisited(Size, definitions, visited)
    decreases c.fragments.Keys - visited, selection
  {
    match selection
    case Field(_) =>
    case Inline(_, _, body) => VisitsArePaid(c, definitions, parent, body, visited);
    case Spread(name, _) =>
      if name !in visited && name in c.fragments {
        var d := c.fragments[name];
        FragmentMapHolds(definitions, name);
        VisitOnce(Size, definitions, visited, d);
        VisitsArePaid(c, definitions, parent, d.selections, visited + {name});
      }
  }

  /** One collection looks at no more selections than the operation and its fragments contain. */
  lemma CollectionIsLinear(c: Context, definitions: seq<Fragment>, parent: string, selections: seq<Selection>)
    requires c.fragments == FragmentMap(definitions)
    ensures Visits(c, parent, selections, {}) <= Size(selections) + Unvisited(Size, definitions, {})
  {
    VisitsArePaid(c, definitions, parent, selections, {});
  }

  /* ---------- Full inlining can be exponential ---------- */

  function ChainName(n: nat): (name: string)
    ensures |name| == n + 1
  {
    seq(n + 1, _ => 'F')
  }

  const LEAF := Field(FieldNode(None, "__typename", map[], PLAIN, []))

  /**
   The types of the fragments of a chain. The fragments spread the next one twice, side by side or,
   if `nested`, below two aliases of the field that leads to its type.
   */
  datatype Ladder = Ladder(on: nat -> string, field: nat -> string, nested: bool)

  function Rungs(l: Ladder, k: nat): seq<Selection>
    requires k > 0
  {
    var spread := Spread(ChainName(k - 1), PLAIN);
    if l.nested then [Below("a", l.field(k), spread), Below("b", l.field(k), spread)] else [spread, spread]
  }

  function Below(alias: string, name: string, selection: Selection): Selection {
    Field(FieldNode(Some(alias), name, map[], PLAIN, [selection]))
  }

  /** Fragment number `n` spreads number `n - 1` twice; number 0 selects one field. */
  function ChainFragment(l: Ladder, n: nat): Fragment {
    Fragment(ChainName(n), l.on(n), if n == 0 then [LEAF] else Rungs(l, n), false)
  }

  function Chain(l: Ladder, n: nat): seq<Fragment> {
    if n == 0 then [ChainFragment(l, 0)] else Chain(l, n - 1) + [ChainFragment(l, n)]
  }

  function ChainSelections(n: nat): seq<Selection> {
    [Spread(ChainName(n), PLAIN)]
  }

  lemma FragmentMapAppend(definitions: seq<Fragment>, d: Fragment)
    ensures FragmentMap(definitions + [d]) == FragmentMap(definitions)[d.name := d]
  {
    assert (definitions + [d])[..|definitions|] == definitions;
  }

  function ChainMap(l: Ladder, n: nat): map<string, Fragment> {
    var d := ChainFragment(l, n);
    if n == 0 then map[d.name := d] else ChainMap(l, n - 1)[d.name := d]
  }

  lemma {:induction false} ChainMapIs(l: Ladder, n: nat)
    ensures FragmentMap(Chain(l, n)) == ChainMap(l, n)
  {
    var d := ChainFragment(l, n);
    if n == 0 {
      assert [] + [d] == Chain(l, 0);
      FragmentMapGrows([], d, Chain(l, 0), map[]);
    } else {
      ChainMapIs(l, n - 1);
      FragmentMapGrows(Chain(l, n - 1), d, Chain(l, n), ChainMap(l, n - 1));
    }
  }

  lemma FragmentMapGrows(before: seq<Fragment>, d: Fragment, all: seq<Fragment>, m: map<string, Fragment>)
    requires all == before + [d] && FragmentMap(before) == m
    ensures FragmentMap(all) == m[d.name := d]
  {
    FragmentMapAppend(before, d);
  }

  lemma {:induction false} ChainLookup(l: Ladder, n: nat, k: nat)
    requires k <= n
    ensures ChainName(k) in ChainMap(l, n)
    ensures ChainMap(l, n)[ChainName(k)] == ChainFragment(l, k)
  {
    if k < n {
      ChainLookup(l, n - 1, k);
      assert |ChainName(k)| != |ChainName(n)|;
    }
  }

  lemma {:induction false} ChainDomain(l: Ladder, n: nat, f: string)
    requires f in ChainMap(l, n)
    ensures 0 < |f| <= n + 1 && f == ChainName(|f| - 1)
  {
    if f != ChainName(n) {
      ChainDomain(l, n - 1, f);
    }
  }

  lemma ChainIsAcyclic(l: Ladder, n: nat)
    ensures Acyclic(FragmentMap(Chain(l, n)))
  {
    var m := ChainMap(l, n);
    ChainMapIs(l, n);
    var rank: map<string, nat> := map f | f in m :: |f|;
    forall f | f in m ensures f in rank && Bound(rank, m[f].selections) <= rank[f] {
      ChainDomain(l, n, f);
      ChainLookup(l, n, |f| - 1);
      ChainBound(rank, l, |f| - 1);
    }
    assert Ranked(m, rank);
  }

  lemma ChainBound(rank: map<string, nat>, l: Ladder, k: nat)
    requires k > 0 && ChainName(k - 1) in rank ==> rank[ChainName(k - 1)] == k
    ensures Bound(rank, ChainFragment(l, k).selections) <= k + 1
  {
    var s := ChainFragment(l, k).selections;
    if k == 0 {
      assert s[1..] == [];
    } else {
      var spread := Spread(ChainName(k - 1), PLAIN);
      assert BoundOne(rank, spread) <= k + 1;
      assert [spread][1..] == [] && Bound(rank, [spread]) <= k + 1;
      assert s[1..] == [s[1]] && [s[1]][1..] == [] && Bound(rank, s[1..]) <= k + 1;
    }
  }

  lemma FlatShort(c: Context, parent: string, a: Selection, b: Selection)
    requires Acyclic(c.fragments)
    ensures Flat(c, parent, [a]) == FlatOne(c, parent, a)
    ensures Flat(c, parent, [a, b]) == FlatOne(c, parent, a) + FlatOne(c, parent, b)
  {
    assert [a][1..] == [] && [a, b][1..] == [b] && [b][1..] == [];
    assert Flat(c, parent, []) == [];
    assert Flat(c, parent, [b]) == FlatOne(c, parent, b) + [];
  }

  lemma FlatSpread(c: Context, on: string, f: Fragment)
    requires Acyclic(c.fragments)
    requires f.name in c.fragments && c.fragments[f.name] == f && f.on == on
    ensures FlatOne(c, on, Spread(f.name, PLAIN)) == Flat(c, on, f.selections)
  {
  }

  /** One spread of a chain link inlines to twice what its own spread inlines to. */
  lemma ChainLink(c: Context, l: Ladder, k: nat)
    requires Acyclic(c.fragments) && !l.nested && (k > 0 ==> l.on(k - 1) == l.on(k))
    requires ChainName(k) in c.fragments && c.fragments[ChainName(k)] == ChainFragment(l, k)
    ensures k == 0 ==> |FlatOne(c, l.on(k), Spread(ChainName(k), PLAIN))| == 1
    ensures k > 0 ==> |FlatOne(c, l.on(k), Spread(ChainName(k), PLAIN))| ==
                      2 * |FlatOne(c, l.on(k), Spread(ChainName(k - 1), PLAIN))|
  {
    FlatSpread(c, l.on(k), ChainFragment(l, k));
    if k == 0 {
      FlatShort(c, l.on(k), LEAF, LEAF);
    } else {
      var spread := Spread(ChainName(k - 1), PLAIN);
      FlatShort(c, l.on(k), spread, spread);
    }
  }

  lemma {:induction false} ChainInlining(c: Context, l: Ladder, n: nat, k: nat)
    requires c.fragments == ChainMap(l, n) && Acyclic(c.fragments)
    requires !l.nested && forall i :: l.on(i) == l.on(0)
    requires k <= n
    ensures |FlatOne(c, l.on(0), Spread(ChainName(k), PLAIN))| == Power(2, k)
    decreases k
  {
    ChainLookup(l, n, k);
    ChainLink(c, l, k);
    if k > 0 {
      ChainInlining(c, l, n, k - 1);
    }
  }

  lemma {:induction false} ChainSize(l: Ladder, n: nat)
    requires !l.nested
    ensures Unvisited(Size, Chain(l, n), {}) == 2 * n + 1
  {
    LinkSize(l, n);
    if n > 0 {
      ChainSize(l, n - 1);
      UnvisitedConcat(Size, Chain(l, n - 1), [ChainFragment(l, n)]);
    }
  }

  lemma LinkSize(l: Ladder, k: nat)
    requires !l.nested
    ensures Unvisited(Size, [ChainFragment(l, k)], {}) == if k == 0 then 1 else 2
  {
    var s := ChainFragment(l, k).selections;
    assert [ChainFragment(l, k)][1..] == [] && Unvisited(Size, [], {}) == 0;
    if k == 0 {
      assert s[1..] == [];
    } else {
      assert s[1..] == ChainSelections(k - 1) && s[1..][1..] == [];
      assert Size(s[1..]) == 1;
    }
  }

  lemma {:induction false} UnvisitedConcat(m: Measure, a: seq<Fragment>, b: seq<Fragment>)
    ensures Unvisited(m, a + b, {}) == Unvisited(m, a, {}) + Unvisited(m, b, {})
  {
    if a == [] {
      assert a + b == b;
    } else {
      assert (a + b)[1..] == a[1..] + b;
      UnvisitedConcat(m, a[1..], b);
    }
  }

  /**
   On the chain of n + 1 fragments on one type, inlining yields 2^n fields where one collection looks
   at 2n + 2 selections at most.
   */
  lemma InliningIsExponential(c: Context, l: Ladder, n: nat)
    requires !l.nested && forall i :: l.on(i) == l.on(0)
    requires c.fragments == FragmentMap(Chain(l, n))
    ensures Acyclic(c.fragments)
    ensures |Flat(c, l.on(0), ChainSelections(n))| == Power(2, n)
    ensures Visits(c, l.on(0), ChainSelections(n), {}) <= 2 * n + 2
  {
    ChainIsAcyclic(l, n);
    ChainMapIs(l, n);
    ChainInlining(c, l, n, n);
    FlatShort(c, l.on(0), Spread(ChainName(n), PLAIN), Spread(ChainName(n), PLAIN));
    ChainSize(l, n);
    CollectionIsLinear(c, Chain(l, n), l.on(0), ChainSelections(n));
    assert ChainSelections(n)[1..] == [];
    assert Size(ChainSelections(n)) == 1;
  }
}
