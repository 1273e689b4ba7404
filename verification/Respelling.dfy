/**
 Rewritings that keep the aliases, such as inlining, reordering and repeating: they keep validity as
 well, so the policy's decision is the same without assuming anything of the rewritten operation.
 */
module Respelling {
  import opened GraphQL
  import opened Fragments
  import opened Inlining
  import opened AutomationCredentials
  import opened Automation
  import opened Footprint
  import opened Invariance

  ghost predicate KeepsAliases(w: Rewriting) {
    forall node :: w.rename(node) == node.alias
  }

  /** What becomes of one field. */
  ghost function Image(c: Context, w: Rewriting, f: FieldNode): FieldNode
    requires Acyclic(c.fragments)
  {
    f.(alias := w.rename(f), selections := Rewrite(c, w, f.selections))
  }

  ghost predicate HasImage(c: Context, w: Rewriting, fields: seq<FieldNode>, image: FieldNode)
    requires Acyclic(c.fragments)
  {
    exists f :: f in fields && image == Image(c, w, f)
  }

  /** On every type, the second selection set inlines to the images of the fields of the first. */
  ghost predicate Mirrors(c: Context, w: Rewriting, a: seq<Selection>, b: seq<Selection>)
    requires Acyclic(c.fragments)
  {
    forall t, f :: f in Flat(c, t, b) <==> HasImage(c, w, Flat(c, t, a), f)
  }

  /* ---------- A rewriting mirrors ---------- */

  lemma {:induction false} FlatByMember(c: Context, t: string, selections: seq<Selection>, f: FieldNode)
    requires Acyclic(c.fragments)
    ensures f in Flat(c, t, selections) <==> exists s :: s in selections && f in FlatOne(c, t, s)
  {
    if selections != [] {
      FlatByMember(c, t, selections[1..], f);
      assert selections == [selections[0]] + selections[1..];
      if f in FlatOne(c, t, selections[0]) {
        assert selections[0] in selections;
      }
    }
  }

  lemma FlatOfSameMembers(c: Context, t: string, a: seq<Selection>, b: seq<Selection>, f: FieldNode)
    requires Acyclic(c.fragments)
    requires forall s :: s in a <==> s in b
    ensures f in Flat(c, t, a) <==> f in Flat(c, t, b)
  {
    FlatByMember(c, t, a, f);
    FlatByMember(c, t, b, f);
  }

  lemma ImagesOfConcat(c: Context, w: Rewriting, a: seq<FieldNode>, b: seq<FieldNode>, image: FieldNode)
    requires Acyclic(c.fragments)
    ensures HasImage(c, w, a + b, image) <==> HasImage(c, w, a, image) || HasImage(c, w, b, image)
  {
  }

  lemma {:induction false} RewriteMirrors(c: Context, w: Rewriting, t: string, selections: seq<Selection>, f: FieldNode)
    requires Acyclic(c.fragments) && KeepsMembers(w)
    ensures f in Flat(c, t, Rewrite(c, w, selections)) <==> HasImage(c, w, Flat(c, t, selections), f)
    decreases Bound(Rank(c.fragments), selections), selections, 1
  {
    RewriteEachMirrors(c, w, t, selections, f);
    FlatOfSameMembers(c, t, Rewrite(c, w, selections), RewriteEach(c, w, selections), f);
  }

  lemma {:induction false} RewriteEachMirrors(c: Context, w: Rewriting, t: string, selections: seq<Selection>,
                                        f: FieldNode)
    requires Acyclic(c.fragments) && KeepsMembers(w)
    ensures f in Flat(c, t, RewriteEach(c, w, selections)) <==> HasImage(c, w, Flat(c, t, selections), f)
    decreases Bound(Rank(c.fragments), selections), selections, 0
  {
    if selections != [] {
      RewriteOneMirrors(c, w, t, selections[0], f);
      RewriteEachMirrors(c, w, t, selections[1..], f);
      assert RewriteEach(c, w, selections)[1..] == RewriteEach(c, w, selections[1..]);
      ImagesOfConcat(c, w, FlatOne(c, t, selections[0]), Flat(c, t, selections[1..]), f);
    }
  }

  lemma {:induction false} RewriteOneMirrors(c: Context, w: Rewriting, t: string, selection: Selection, f: FieldNode)
    requires Acyclic(c.fragments) && KeepsMembers(w)
    ensures f in FlatOne(c, t, RewriteOne(c, w, selection)) <==> HasImage(c, w, FlatOne(c, t, selection), f)
    decreases BoundOne(Rank(c.fragments), selection), selection
  {
    match selection
    case Field(node) =>
      assert RewriteOne(c, w, selection) == Field(Image(c, w, node));
      if Included(node.directives, c.variables) {
        assert FlatOne(c, t, selection) == [node];
      }
    case Inline(_, _, body) => RewriteMirrors(c, w, t, body, f);
    case Spread(name, _) =>
      if name in c.fragments {
        RewriteMirrors(c, w, t, c.fragments[name].selections, f);
      }
  }

  /* ---------- Groups that mirror each other ---------- */

  ghost predicate Twins(c: Context, w: Rewriting, a: seq<FieldNode>, b: seq<FieldNode>)
    requires Acyclic(c.fragments)
  {
    forall f :: f in b <==> HasImage(c, w, a, f)
  }

  lemma {:induction false} FlatConcat(c: Context, t: string, a: seq<Selection>, b: seq<Selection>)
    requires Acyclic(c.fragments)
    ensures Flat(c, t, a + b) == Flat(c, t, a) + Flat(c, t, b)
  {
    if a == [] {
      assert a + b == b;
    } else {
      assert (a + b)[1..] == a[1..] + b;
      FlatConcat(c, t, a[1..], b);
    }
  }

  lemma {:induction false} FlatMerged(c: Context, t: string, group: seq<FieldNode>, f: FieldNode)
    requires Acyclic(c.fragments)
    ensures f in Flat(c, t, Merged(group)) <==> exists n :: n in group && f in Flat(c, t, n.selections)
  {
    if group != [] {
      FlatConcat(c, t, group[0].selections, Merged(group[1..]));
      FlatMerged(c, t, group[1..], f);
      assert group == [group[0]] + group[1..];
      if f in Flat(c, t, group[0].selections) {
        assert group[0] in group;
      }
    }
  }

  lemma MergedMirrors(c: Context, w: Rewriting, a: seq<FieldNode>, b: seq<FieldNode>)
    requires Acyclic(c.fragments) && KeepsMembers(w) && Twins(c, w, a, b)
    ensures Mirrors(c, w, Merged(a), Merged(b))
  {
    forall t, f ensures f in Flat(c, t, Merged(b)) <==> HasImage(c, w, Flat(c, t, Merged(a)), f) {
      FlatMerged(c, t, b, f);
      if f in Flat(c, t, Merged(b)) {
        var n' :| n' in b && f in Flat(c, t, n'.selections);
        var n :| n in a && n' == Image(c, w, n);
        RewriteMirrors(c, w, t, n.selections, f);
        var from :| from in Flat(c, t, n.selections) && f == Image(c, w, from);
        FlatMerged(c, t, a, from);
      }
      if HasImage(c, w, Flat(c, t, Merged(a)), f) {
        var from :| from in Flat(c, t, Merged(a)) && f == Image(c, w, from);
        FlatMerged(c, t, a, from);
        var n :| n in a && from in Flat(c, t, n.selections);
        RewriteMirrors(c, w, t, n.selections, f);
        assert Image(c, w, n) in b;
      }
    }
  }

  /** A group holds the collected fields of one response key. */
  lemma {:induction false} GroupIsOfKey(fields: seq<FieldNode>, group: seq<FieldNode>)
    requires group in Groups(fields)
    ensures forall f :: f in group <==> f in fields && f.Key() == group[0].Key()
    decreases |fields|
  {
    if fields != [] {
      var key := fields[0].Key();
      var rest := Groups(WithoutKey(fields[1..], key));
      assert Groups(fields) == [WithKey(fields, key)] + rest;
      if group == WithKey(fields, key) {
        assert group[0] in group;
      } else {
        assert group in rest;
        GroupIsOfKey(WithoutKey(fields[1..], key), group);
        assert group[0] in group;
        assert fields == [fields[0]] + fields[1..];
      }
    }
  }

  ghost predicate SameFields(c: Context, w: Rewriting, parent: string, a: seq<Selection>, b: seq<Selection>)
    requires Acyclic(c.fragments)
  {
    forall f :: f in Fields(c, parent, b) <==> HasImage(c, w, Fields(c, parent, a), f)
  }

  lemma MirrorsCollect(c: Context, w: Rewriting, parent: string, a: seq<Selection>, b: seq<Selection>)
    requires Acyclic(c.fragments) && Mirrors(c, w, a, b)
    ensures SameFields(c, w, parent, a, b)
  {
    forall f ensures f in Fields(c, parent, b) <==> HasImage(c, w, Fields(c, parent, a), f) {
      CollectEqualsInlining(c, parent, b, f);
      forall g { CollectEqualsInlining(c, parent, a, g); }
    }
  }

  /** Groups of one response key are twins. */
  lemma SameKeyIsTwin(c: Context, w: Rewriting, a: seq<FieldNode>, b: seq<FieldNode>, group: seq<FieldNode>,
                      twin: seq<FieldNode>)
    requires Acyclic(c.fragments) && KeepsAliases(w)
    requires forall f :: f in b <==> HasImage(c, w, a, f)
    requires group in Groups(a) && twin in Groups(b) && group[0].Key() == twin[0].Key()
    ensures Twins(c, w, group, twin)
  {
    GroupIsOfKey(a, group);
    GroupIsOfKey(b, twin);
    forall f ensures f in twin <==> HasImage(c, w, group, f) {
      if f in twin {
        var g :| g in a && f == Image(c, w, g);
        assert g.Key() == f.Key();
      }
      if HasImage(c, w, group, f) {
        var g :| g in group && f == Image(c, w, g);
        assert g.Key() == f.Key();
      }
    }
  }

  lemma TwinOf(c: Context, w: Rewriting, a: seq<FieldNode>, b: seq<FieldNode>, group: seq<FieldNode>)
    returns (twin: seq<FieldNode>)
    requires Acyclic(c.fragments) && KeepsAliases(w)
    requires forall f :: f in b <==> HasImage(c, w, a, f)
    requires group in Groups(a)
    ensures twin in Groups(b) && Twins(c, w, group, twin)
  {
    GroupIsOfKey(a, group);
    var image := Image(c, w, group[0]);
    assert group[0] in group && image in b;
    twin :| twin in Groups(b) && image in twin;
    GroupIsOfKey(b, twin);
    SameKeyIsTwin(c, w, a, b, group, twin);
  }

  lemma OfTwin(c: Context, w: Rewriting, a: seq<FieldNode>, b: seq<FieldNode>, twin: seq<FieldNode>)
    returns (group: seq<FieldNode>)
    requires Acyclic(c.fragments) && KeepsAliases(w)
    requires forall f :: f in b <==> HasImage(c, w, a, f)
    requires twin in Groups(b)
    ensures group in Groups(a) && Twins(c, w, group, twin)
  {
    GroupIsOfKey(b, twin);
    assert twin[0] in twin && twin[0] in b;
    var f :| f in a && twin[0] == Image(c, w, f);
    group :| group in Groups(a) && f in group;
    GroupIsOfKey(a, group);
    SameKeyIsTwin(c, w, a, b, group, twin);
  }

  lemma TwinsAgree(c: Context, w: Rewriting, parent: string, group: seq<FieldNode>, twin: seq<FieldNode>)
    requires Acyclic(c.fragments) && Twins(c, w, group, twin) && group != [] && twin != []
    ensures Agree(group) <==> Agree(twin)
    ensures Agree(group) ==> ChildTypes(c, parent, group) == ChildTypes(c, parent, twin)
  {
    assert group[0] in group && Image(c, w, group[0]) in twin && twin[0] in twin;
    if Agree(group) {
      forall f, f' | f in twin && f' in twin ensures f.name == f'.name && f.arguments == f'.arguments {
        var g :| g in group && f == Image(c, w, g);
        var g' :| g' in group && f' == Image(c, w, g');
      }
    }
    if Agree(twin) {
      forall f, f' | f in group && f' in group ensures f.name == f'.name && f.arguments == f'.arguments {
        assert Image(c, w, f) in twin && Image(c, w, f') in twin;
      }
    }
  }

  lemma SameMembersSameEmptiness<T>(a: seq<T>, b: seq<T>)
    requires forall x :: x in a <==> x in b
    ensures a == [] <==> b == []
  {
    if a != [] {
      assert a[0] in a;
    }
    if b != [] {
      assert b[0] in b;
    }
  }

  lemma ImageIsValid(c: Context, w: Rewriting, parent: string, f: FieldNode)
    requires Acyclic(c.fragments) && KeepsMembers(w)
    ensures ValidField(c, parent, Image(c, w, f)) <==> ValidField(c, parent, f)
  {
    SameMembersSameEmptiness(Rewrite(c, w, f.selections), RewriteEach(c, w, f.selections));
  }

  /* ---------- Validity is kept ---------- */

  ghost predicate FieldsAreValid(c: Context, parent: string, fields: seq<FieldNode>) {
    forall f :: f in fields ==> ValidField(c, parent, f)
  }

  ghost predicate GroupIsValid(c: Context, parent: string, group: seq<FieldNode>)
    requires Acyclic(c.fragments) && group != []
  {
    Agree(group) && forall t :: t in ChildTypes(c, parent, group) ==> Valid(c, t, Merged(group))
  }

  lemma GroupsOfValid(c: Context, parent: string, selections: seq<Selection>, group: seq<FieldNode>)
    requires Acyclic(c.fragments) && Valid(c, parent, selections)
    requires group in Groups(Fields(c, parent, selections))
    ensures GroupIsValid(c, parent, group)
  {
  }

  lemma ValidOfGroups(c: Context, parent: string, selections: seq<Selection>)
    requires Acyclic(c.fragments) && FieldsAreValid(c, parent, Fields(c, parent, selections))
    requires forall group :: group in Groups(Fields(c, parent, selections)) ==> GroupIsValid(c, parent, group)
    ensures Valid(c, parent, selections)
  {
    forall group | group in Groups(Fields(c, parent, selections))
      ensures Agree(group)
      ensures forall t :: t in ChildTypes(c, parent, group) ==> Valid(c, t, Merged(group))
    {
      assert GroupIsValid(c, parent, group);
    }
  }

  lemma ValidByGroups(c: Context, parent: string, selections: seq<Selection>)
    requires Acyclic(c.fragments)
    ensures Valid(c, parent, selections) <==>
            && FieldsAreValid(c, parent, Fields(c, parent, selections))
            && forall group :: group in Groups(Fields(c, parent, selections)) ==> GroupIsValid(c, parent, group)
  {
    if Valid(c, parent, selections) {
      forall group | group in Groups(Fields(c, parent, selections)) ensures GroupIsValid(c, parent, group) {
        GroupsOfValid(c, parent, selections, group);
      }
    } else if FieldsAreValid(c, parent, Fields(c, parent, selections)) &&
              forall group :: group in Groups(Fields(c, parent, selections)) ==> GroupIsValid(c, parent, group) {
      ValidOfGroups(c, parent, selections);
    }
  }

  lemma ImagesAreValid(c: Context, w: Rewriting, parent: string, a: seq<FieldNode>, b: seq<FieldNode>)
    requires Acyclic(c.fragments) && KeepsMembers(w)
    requires forall f :: f in b <==> HasImage(c, w, a, f)
    ensures FieldsAreValid(c, parent, a) <==> FieldsAreValid(c, parent, b)
  {
    forall f | f in a
      ensures Image(c, w, f) in b && (ValidField(c, parent, Image(c, w, f)) <==> ValidField(c, parent, f))
    {
      ImageIsValid(c, w, parent, f);
    }
  }

  lemma {:induction false} MirrorIsValid(c: Context, w: Rewriting, parent: string, a: seq<Selection>, b: seq<Selection>)
    requires Acyclic(c.fragments) && KeepsMembers(w) && KeepsAliases(w) && Mirrors(c, w, a, b)
    ensures Valid(c, parent, a) <==> Valid(c, parent, b)
    decreases Height(c, a), 0
  {
    var fields, fields' := Fields(c, parent, a), Fields(c, parent, b);
    MirrorsCollect(c, w, parent, a, b);
    ImagesAreValid(c, w, parent, fields, fields');
    forall twin: seq<FieldNode> | twin in Groups(fields')
      ensures exists group :: group in Groups(fields) &&
                              (GroupIsValid(c, parent, group) <==> GroupIsValid(c, parent, twin))
    {
      var group := OfTwin(c, w, fields, fields', twin);
      GroupIsLower(c, parent, a, group);
      TwinIsValid(c, w, parent, group, twin);
    }
    forall group: seq<FieldNode> | group in Groups(fields)
      ensures exists twin :: twin in Groups(fields') &&
                             (GroupIsValid(c, parent, group) <==> GroupIsValid(c, parent, twin))
    {
      var twin := TwinOf(c, w, fields, fields', group);
      GroupIsLower(c, parent, a, group);
      TwinIsValid(c, w, parent, group, twin);
    }
    ValidByGroups(c, parent, a);
    ValidByGroups(c, parent, b);
  }

  lemma {:induction false} TwinIsValid(c: Context, w: Rewriting, parent: string, group: seq<FieldNode>,
                                        twin: seq<FieldNode>)
    requires Acyclic(c.fragments) && KeepsMembers(w) && KeepsAliases(w)
    requires Twins(c, w, group, twin) && group != [] && twin != []
    ensures GroupIsValid(c, parent, group) <==> GroupIsValid(c, parent, twin)
    decreases Height(c, Merged(group)), 1
  {
    TwinsAgree(c, w, parent, group, twin);
    MergedMirrors(c, w, group, twin);
    forall t ensures Valid(c, t, Merged(group)) <==> Valid(c, t, Merged(twin)) {
      MirrorIsValid(c, w, t, Merged(group), Merged(twin));
    }
  }

  /** Inlining fragments, reordering and repeating selections, anywhere, keeps validity. */
  lemma RespellingKeepsValidity(c: Context, w: Rewriting, parent: string, selections: seq<Selection>)
    requires Acyclic(c.fragments) && KeepsMembers(w) && KeepsAliases(w)
    ensures Valid(c, parent, Rewrite(c, w, selections)) <==> Valid(c, parent, selections)
  {
    forall t, f { RewriteMirrors(c, w, t, selections, f); }
    MirrorIsValid(c, w, parent, selections, Rewrite(c, w, selections));
  }

  /** So it keeps the decision on every valid operation. */
  lemma RespellingKeepsDecision(g: Gate, user: User, c: Context, w: Rewriting, parent: string,
                                selections: seq<Selection>, root: bool)
    requires Acyclic(c.fragments) && KeepsMembers(w) && KeepsAliases(w)
    requires ConcreteEdges(g, c.schema) && ReservedNames(c.schema) && c.schema.IsObject(parent)
    requires Valid(c, parent, selections)
    ensures Check(g, user, c, parent, Rewrite(c, w, selections), root) == Check(g, user, c, parent, selections, root)
  {
    RespellingKeepsValidity(c, w, parent, selections);
    DecisionIgnoresSpelling(g, user, c, w, parent, selections, root);
  }
}
