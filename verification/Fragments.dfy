/**
 Documents whose fragments do not form cycles (GraphQL specification, section 5.5.2.2),
 and a measure that decreases from an operation to every selection below it.
 */
module Fragments {
  import opened GraphQL
  import opened Numbers

  /* ---------- Acyclicity and the measures ---------- */

  /** An upper bound on the ranks of the fragments spread anywhere below `selections`. */
  function Bound(rank: map<string, nat>, selections: seq<Selection>): nat
    decreases selections
  {
    if selections == [] then 0
    else Max(BoundOne(rank, selections[0]), Bound(rank, selections[1..]))
  }

  function BoundOne(rank: map<string, nat>, selection: Selection): nat
    decreases selection
  {
    match selection
    case Field(node) => Bound(rank, node.selections)
    case Inline(_, _, body) => Bound(rank, body)
    case Spread(name, _) => if name in rank then rank[name] + 1 else 0
  }

  /** Every fragment only spreads, at any depth, fragments of smaller rank. */
  ghost predicate Ranked(fragments: map<string, Fragment>, rank: map<string, nat>) {
    forall f :: f in fragments ==> f in rank && Bound(rank, fragments[f].selections) <= rank[f]
  }

  ghost predicate Acyclic(fragments: map<string, Fragment>) {
    exists rank: map<string, nat> :: Ranked(fragments, rank)
  }

  ghost function Rank(fragments: map<string, Fragment>): (rank: map<string, nat>)
    requires Acyclic(fragments)
    ensures Ranked(fragments, rank)
  {
    var rank: map<string, nat> :| Ranked(fragments, rank);
    rank
  }

  /** How deeply field selections nest once every fragment is inlined. */
  ghost function Height(c: Context, selections: seq<Selection>): nat
    requires Acyclic(c.fragments)
    decreases Bound(Rank(c.fragments), selections), selections
  {
    if selections == [] then 0
    else Max(HeightOne(c, selections[0]), Height(c, selections[1..]))
  }

  ghost function HeightOne(c: Context, selection: Selection): nat
    requires Acyclic(c.fragments)
    decreases BoundOne(Rank(c.fragments), selection), selection
  {
    match selection
    case Field(node) => 1 + Height(c, node.selections)
    case Inline(_, _, body) => Height(c, body)
    case Spread(name, _) => if name in c.fragments then Height(c, c.fragments[name].selections) else 0
  }

  lemma {:induction false} HeightConcat(c: Context, a: seq<Selection>, b: seq<Selection>)
    requires Acyclic(c.fragments)
    ensures Height(c, a + b) == Max(Height(c, a), Height(c, b))
  {
    if a == [] {
      assert a + b == b;
    } else {
      assert (a + b)[1..] == a[1..] + b;
      HeightConcat(c, a[1..], b);
    }
  }

  /** Every collected field nests strictly less deeply than the selection set it came from. */
  lemma {:induction false} CollectedIsLower(c: Context, parent: string, selections: seq<Selection>,
                                        visited: set<string>)
    requires Acyclic(c.fragments)
    ensures forall f :: f in Collect(c, parent, selections, visited).0 ==>
            Height(c, f.selections) < Height(c, selections)
    decreases c.fragments.Keys - visited, selections
  {
    if selections != [] {
      CollectedOneIsLower(c, parent, selections[0], visited);
      CollectedIsLower(c, parent, selections[1..], CollectOne(c, parent, selections[0], visited).1);
    }
  }

  lemma {:induction false} CollectedOneIsLower(c: Context, parent: string, selection: Selection, visited: set<string>)
    requires Acyclic(c.fragments)
    ensures forall f :: f in CollectOne(c, parent, selection, visited).0 ==>
            Height(c, f.selections) < HeightOne(c, selection)
    decreases c.fragments.Keys - visited, selection
  {
    match selection
    case Field(_) =>
    case Inline(_, _, body) => CollectedIsLower(c, parent, body, visited);
    case Spread(name, _) =>
      if name !in visited && name in c.fragments {
        CollectedIsLower(c, parent, c.fragments[name].selections, visited + {name});
      }
  }

  /** The merged selections of any group are strictly lower than the selection set they came from. */
  lemma {:induction false} MergedIsLower(c: Context, group: seq<FieldNode>, height: nat)
    requires Acyclic(c.fragments)
    requires forall f :: f in group ==> Height(c, f.selections) < height
    requires group != []
    ensures Height(c, Merged(group)) < height
  {
    HeightConcat(c, group[0].selections, Merged(group[1..]));
    if |group| > 1 {
      MergedIsLower(c, group[1..], height);
    }
  }

  lemma GroupIsLower(c: Context, parent: string, selections: seq<Selection>, group: seq<FieldNode>)
    requires Acyclic(c.fragments)
    requires group in Groups(Fields(c, parent, selections))
    ensures Height(c, Merged(group)) < Height(c, selections)
  {
    CollectedIsLower(c, parent, selections, {});
    MergedIsLower(c, group, Height(c, selections));
  }
}
