/** Entering each named fragment once collects exactly the fields that full inlining would. */
module Inlining {
  import opened GraphQL
  import opened Fragments

  /** Field collection without the visited set: every spread is inlined every time. */
  ghost function Flat(c: Context, parent: string, selections: seq<Selection>): seq<FieldNode>
    requires Acyclic(c.fragments)
    decreases Bound(Rank(c.fragments), selections), selections
  {
    if selections == [] then []
    else FlatOne(c, parent, selections[0]) + Flat(c, parent, selections[1..])
  }

  ghost function FlatOne(c: Context, parent: string, selection: Selection): seq<FieldNode>
    requires Acyclic(c.fragments)
    decreases BoundOne(Rank(c.fragments), selection), selection
  {
    match selection
    case Field(node) => if Included(node.directives, c.variables) then [node] else []
    case Inline(on, directives, body) =>
      if !Included(directives, c.variables) || !c.schema.Matches(on, parent) then []
      else Flat(c, parent, body)
    case Spread(name, directives) =>
      if !Included(directives, c.variables) || !Applies(c, parent, name) then []
      else Flat(c, parent, c.fragments[name].selections)
  }

  /** `f` comes from a fragment in `visited` that could still be spread at rank below `bound`. */
  ghost predicate SeenBefore(c: Context, parent: string, visited: set<string>, bound: nat, f: FieldNode)
    requires Acyclic(c.fragments)
  {
    exists g :: g in visited && InFragment(c, parent, g, f) && Rank(c.fragments)[g] < bound
  }

  ghost predicate InFragment(c: Context, parent: string, g: string, f: FieldNode)
    requires Acyclic(c.fragments)
    ensures InFragment(c, parent, g, f) ==> g in Rank(c.fragments)
  {
    Applies(c, parent, g) && f in Flat(c, parent, c.fragments[g].selections)
  }

  /**
   What the visited set is worth: a field of the full inlining is collected now, or
   belongs to a fragment that had been visited before; and the same holds of every
   field of every fragment visited on the way.
   */
  lemma {:induction false} CollectCovers(c: Context, parent: string, selections: seq<Selection>,
                                        visited: set<string>, f: FieldNode)
    requires Acyclic(c.fragments)
    ensures var (fields, after) := Collect(c, parent, selections, visited);
            var bound := Bound(Rank(c.fragments), selections);
            && (f in fields ==> f in Flat(c, parent, selections))
            && (f in Flat(c, parent, selections) ==> f in fields || SeenBefore(c, parent, visited, bound, f))
            && (forall g :: g in after && g !in visited && InFragment(c, parent, g, f) ==>
                  f in fields || SeenBefore(c, parent, visited, bound, f))
    decreases c.fragments.Keys - visited, selections
  {
    if selections != [] {
      CollectOneCovers(c, parent, selections[0], visited, f);
      CollectCovers(c, parent, selections[1..], CollectOne(c, parent, selections[0], visited).1, f);
    }
  }

  lemma {:induction false} CollectOneCovers(c: Context, parent: string, selection: Selection, visited: set<string>,
                                        f: FieldNode)
    requires Acyclic(c.fragments)
    ensures var (fields, after) := CollectOne(c, parent, selection, visited);
            var bound := BoundOne(Rank(c.fragments), selection);
            && (f in fields ==> f in FlatOne(c, parent, selection))
            && (f in FlatOne(c, parent, selection) ==> f in fields || SeenBefore(c, parent, visited, bound, f))
            && (forall g :: g in after && g !in visited && InFragment(c, parent, g, f) ==>
                  f in fields || SeenBefore(c, parent, visited, bound, f))
    decreases c.fragments.Keys - visited, selection
  {
    match selection
    case Field(_) =>
    case Inline(_, _, body) => CollectCovers(c, parent, body, visited, f);
    case Spread(name, directives) =>
      if Included(directives, c.variables) && Applies(c, parent, name) {
        if name in visited {
          assert f in FlatOne(c, parent, selection) ==> InFragment(c, parent, name, f);
        } else {
          CollectCovers(c, parent, c.fragments[name].selections, visited + {name}, f);
        }
      }
  }

  /** Collecting each fragment once finds exactly the fields of the full inlining. */
  lemma CollectEqualsInlining(c: Context, parent: string, selections: seq<Selection>, f: FieldNode)
    requires Acyclic(c.fragments)
    ensures f in Fields(c, parent, selections) <==> f in Flat(c, parent, selections)
  {
    CollectCovers(c, parent, selections, {}, f);
  }
}
