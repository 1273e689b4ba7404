/**
 `build_flat_tree` (`config/graphql/base_types.py`): parent links become child lists
 of global ids. The forest is preserved: each node is somebody's child exactly where
 its parent link says, and walking the child lists visits every node once.
 */
module FlatTree {
  import opened Wrappers
  import opened Sequences

  datatype Node = Node(id: int, parentId: Option<int>, text: Option<string>)
  {
    /** The parent link as the source tests it: `None` and 0 are both falsy. */
    function Parent(): Option<int> {
      if parentId == Some(0) then None else parentId
    }
  }

  datatype Entry = Entry(id: string, text: string, children: seq<string>)

  type GlobalId = int -> string

  /** The ids of the nodes that name `id` as their parent, in input order. */
  function Children(nodes: seq<Node>, id: int): seq<int> {
    if nodes == [] then []
    else
      var last := nodes[|nodes| - 1];
      Children(nodes[..|nodes| - 1], id) + (if last.Parent() == Some(id) then [last.id] else [])
  }

  function Globals(toGlobal: GlobalId, ids: seq<int>): (r: seq<string>)
    ensures |r| == |ids| && forall i :: 0 <= i < |ids| ==> r[i] == toGlobal(ids[i])
  {
    seq(|ids|, i requires 0 <= i < |ids| => toGlobal(ids[i]))
  }

  function EntryOf(nodes: seq<Node>, node: Node, toGlobal: GlobalId): Entry {
    Entry(toGlobal(node.id), node.text.GetOr(""), Globals(toGlobal, Children(nodes, node.id)))
  }

  /** `id_to_children.get(id, [])` */
  function Get(children: map<int, seq<int>>, id: int): seq<int> {
    if id in children then children[id] else []
  }

  /** The dictionary holds the child list of every id, for the nodes seen so far. */
  ghost predicate Recorded(children: map<int, seq<int>>, seen: seq<Node>) {
    forall id :: Get(children, id) == Children(seen, id)
  }

  /** `setdefault(parent_id, []).append(node_id)` for one more node. */
  lemma RecordOne(before: map<int, seq<int>>, after: map<int, seq<int>>, seen: seq<Node>, node: Node)
    requires Recorded(before, seen)
    requires after == match node.Parent()
                      case None => before
                      case Some(parent) => before[parent := Get(before, parent) + [node.id]]
    ensures Recorded(after, seen + [node])
  {
    forall id ensures Get(after, id) == Children(seen + [node], id) {
      assert (seen + [node])[..|seen|] == seen;
      assert Get(before, id) == Children(seen, id);
    }
  }

  method BuildFlatTree(nodes: seq<Node>, toGlobal: GlobalId) returns (nodeList: seq<Entry>)
    ensures IsFlatTree(nodes, toGlobal, nodeList)
  {
    var idToChildren: map<int, seq<int>> := map[];
    for i := 0 to |nodes|
      invariant Recorded(idToChildren, nodes[..i])
    {
      ghost var before := idToChildren;
      var parent := nodes[i].Parent();
      if parent.Some? {
        idToChildren := idToChildren[parent.value := Get(idToChildren, parent.value) + [nodes[i].id]];
      }
      RecordOne(before, idToChildren, nodes[..i], nodes[i]);
      TakeOne(nodes, i);
    }
    TakeAll(nodes);
    nodeList := [];
    for i := 0 to |nodes|
      invariant IsFlatTreeOf(nodes, nodes[..i], toGlobal, nodeList)
    {
      var node := nodes[i];
      var children := Get(idToChildren, node.id);
      var entry := Entry(toGlobal(node.id), node.text.GetOr(""), Globals(toGlobal, children));
      AddEntry(nodes, nodes[..i], node, toGlobal, nodeList, entry);
      TakeOne(nodes, i);
      nodeList := nodeList + [entry];
    }
    TakeAll(nodes);
  }

  lemma AddEntry(nodes: seq<Node>, done: seq<Node>, node: Node, toGlobal: GlobalId, out: seq<Entry>, entry: Entry)
    requires IsFlatTreeOf(nodes, done, toGlobal, out) && entry == EntryOf(nodes, node, toGlobal)
    ensures IsFlatTreeOf(nodes, done + [node], toGlobal, out + [entry])
  {
  }

  /** One entry for each of the nodes `done`, in place, with its child list among `nodes`. */
  ghost predicate IsFlatTreeOf(nodes: seq<Node>, done: seq<Node>, toGlobal: GlobalId, out: seq<Entry>) {
    |out| == |done| && forall i :: 0 <= i < |done| ==> out[i] == EntryOf(nodes, done[i], toGlobal)
  }

  ghost predicate IsFlatTree(nodes: seq<Node>, toGlobal: GlobalId, out: seq<Entry>) {
    IsFlatTreeOf(nodes, nodes, toGlobal, out)
  }

  /* ---------- Edges ---------- */

  ghost predicate UniqueIds(nodes: seq<Node>) {
    forall i, j :: 0 <= i < j < |nodes| ==> nodes[i].id != nodes[j].id
  }

  /** Distinct ids have distinct global ids: there is a way back, as `from_global_id` is. */
  ghost predicate Injective(toGlobal: GlobalId) {
    exists back: string -> int :: Inverts(back, toGlobal)
  }

  ghost predicate Inverts(back: string -> int, toGlobal: GlobalId) {
    forall a {:trigger toGlobal(a)} :: back(toGlobal(a)) == a
  }

  lemma {:induction false} ChildrenAre(nodes: seq<Node>, id: int, child: int)
    ensures child in Children(nodes, id) <==>
            exists i :: 0 <= i < |nodes| && nodes[i].id == child && nodes[i].Parent() == Some(id)
  {
    if nodes != [] {
      var n := |nodes| - 1;
      ChildrenAre(nodes[..n], id, child);
      if i :| 0 <= i < |nodes| && nodes[i].id == child && nodes[i].Parent() == Some(id) {
        assert i < n ==> nodes[..n][i] == nodes[i];
      }
    }
  }

  /** The parent links inside the list can be read off the output. */
  lemma ParentsAreRecovered(nodes: seq<Node>, toGlobal: GlobalId, out: seq<Entry>, i: nat, j: nat)
    requires UniqueIds(nodes) && Injective(toGlobal) && IsFlatTree(nodes, toGlobal, out)
    requires i < |nodes| && j < |nodes|
    ensures out[i].id in out[j].children <==> nodes[i].Parent() == Some(nodes[j].id)
  {
    var ids := Children(nodes, nodes[j].id);
    ChildrenAre(nodes, nodes[j].id, nodes[i].id);
    if nodes[i].id in ids {
      var k :| 0 <= k < |ids| && ids[k] == nodes[i].id;
      assert Globals(toGlobal, ids)[k] == out[i].id;
    }
    if out[i].id in out[j].children {
      var k :| 0 <= k < |ids| && Globals(toGlobal, ids)[k] == out[i].id;
      assert ids[k] == nodes[i].id;
    }
  }

  /** Every child list is in input order. */
  lemma {:induction false} SiblingsKeepOrder(nodes: seq<Node>, id: int, a: nat, b: nat)
    requires UniqueIds(nodes)
    requires a < b < |nodes| && nodes[a].Parent() == Some(id) && nodes[b].Parent() == Some(id)
    ensures exists i, j ::
              && 0 <= i < j < |Children(nodes, id)|
              && Children(nodes, id)[i] == nodes[a].id && Children(nodes, id)[j] == nodes[b].id
  {
    var n := |nodes| - 1;
    var before := Children(nodes[..n], id);
    if b < n {
      SiblingsKeepOrder(nodes[..n], id, a, b);
      var i, j :| 0 <= i < j < |before| && before[i] == nodes[a].id && before[j] == nodes[b].id;
      assert Children(nodes, id)[i] == before[i] && Children(nodes, id)[j] == before[j];
    } else {
      assert nodes[..n][a] == nodes[a];
      ChildrenAre(nodes[..n], id, nodes[a].id);
      var i :| 0 <= i < |before| && before[i] == nodes[a].id;
      assert Children(nodes, id)[i] == nodes[a].id && Children(nodes, id)[|before|] == nodes[b].id;
    }
  }

  /* ---------- Walking the output ---------- */

  /** An entry with this id, if there is one. */
  ghost function Find(out: seq<Entry>, id: string): (r: Option<Entry>)
    ensures r.Some? ==> r.value in out && r.value.id == id
  {
    if exists e :: e in out && e.id == id then
      var e :| e in out && e.id == id;
      Some(e)
    else None
  }

  /** Preorder from one entry, along `children`; `depth` bounds the descent. */
  ghost function Walk(out: seq<Entry>, id: string, depth: nat): seq<string>
    decreases depth, 0
  {
    if depth == 0 || Find(out, id).None? then []
    else [id] + WalkAll(out, Find(out, id).value.children, depth - 1)
  }

  ghost function WalkAll(out: seq<Entry>, ids: seq<string>, depth: nat): seq<string>
    decreases depth, 1, |ids|
  {
    if ids == [] then [] else Walk(out, ids[0], depth) + WalkAll(out, ids[1..], depth)
  }

  /** The entries that are nobody's child, in order. */
  function Roots(out: seq<Entry>, among: seq<Entry>): seq<string> {
    if among == [] then []
    else
      Roots(out, among[..|among| - 1]) +
      (if IsChild(out, among[|among| - 1].id) then [] else [among[|among| - 1].id])
  }

  predicate IsChild(out: seq<Entry>, id: string) {
    exists e :: e in out && id in e.children
  }

  /** How often `x` occurs in `s`. */
  function Count(s: seq<string>, x: string): nat {
    if s == [] then 0 else (if s[0] == x then 1 else 0) + Count(s[1..], x)
  }

  lemma {:induction false} CountConcat(a: seq<string>, b: seq<string>, x: string)
    ensures Count(a + b, x) == Count(a, x) + Count(b, x)
  {
    if a == [] {
      assert a + b == b;
    } else {
      assert (a + b)[1..] == a[1..] + b;
      CountConcat(a[1..], b, x);
    }
  }

  /* ---------- Forests ---------- */

  /** The parent of every listed node, if that parent is listed too. */
  type Links = map<int, Option<int>>

  predicate Listed(nodes: seq<Node>, id: int) {
    exists i :: 0 <= i < |nodes| && nodes[i].id == id
  }

  /** A node's parent if it is in the list. */
  function Above(nodes: seq<Node>, node: Node): Option<int> {
    if node.Parent().Some? && Listed(nodes, node.Parent().value) then node.Parent() else None
  }

  ghost predicate AreLinks(nodes: seq<Node>, up: Links) {
    && (forall x :: x in up <==> Listed(nodes, x))
    && (forall i :: 0 <= i < |nodes| ==> up[nodes[i].id] == Above(nodes, nodes[i]))
  }

  function LinksOf(nodes: seq<Node>, among: seq<Node>): Links {
    if among == [] then map[]
    else
      var last := among[|among| - 1];
      LinksOf(nodes, among[..|among| - 1])[last.id := Above(nodes, last)]
  }

  lemma {:induction false} LinksAre(nodes: seq<Node>, upto: nat)
    requires UniqueIds(nodes) && upto <= |nodes|
    ensures var up := LinksOf(nodes, nodes[..upto]);
            && (forall x :: x in up ==> Listed(nodes, x))
            && (forall i :: 0 <= i < upto ==> nodes[i].id in up && up[nodes[i].id] == Above(nodes, nodes[i]))
  {
    if upto > 0 {
      TakeOne(nodes, upto - 1);
      LinksAre(nodes, upto - 1);
    }
  }

  /** Links never go round: each node ranks above its parent, and ranks stay below `height`. */
  ghost predicate Forest(up: Links, rank: map<int, nat>, height: nat) {
    forall x {:trigger up[x]} :: x in up ==>
      && x in rank && rank[x] < height
      && (up[x].Some? ==> up[x].value in up && up[x].value in rank && rank[up[x].value] < rank[x])
  }

  /** `a` is `x` or above it. */
  ghost predicate Over(up: Links, rank: map<int, nat>, height: nat, a: int, x: int)
    requires Forest(up, rank, height) && x in up
    decreases rank[x]
  {
    a == x || (up[x].Some? && Over(up, rank, height, a, up[x].value))
  }

  lemma {:induction false} OverRanks(up: Links, rank: map<int, nat>, height: nat, a: int, x: int)
    requires Forest(up, rank, height) && x in up
    requires Over(up, rank, height, a, x)
    ensures a in up && rank[a] <= rank[x] && (a != x ==> rank[a] < rank[x])
    decreases rank[x]
  {
    if a != x {
      OverRanks(up, rank, height, a, up[x].value);
    }
  }

  /** Two nodes over `x` lie on one chain. */
  lemma {:induction false} OverIsAChain(up: Links, rank: map<int, nat>, height: nat, a: int, b: int, x: int)
    requires Forest(up, rank, height) && x in up
    requires Over(up, rank, height, a, x) && Over(up, rank, height, b, x)
    ensures a in up && b in up
    ensures Over(up, rank, height, a, b) || Over(up, rank, height, b, a)
    decreases rank[x]
  {
    OverRanks(up, rank, height, a, x);
    OverRanks(up, rank, height, b, x);
    if a != x && b != x {
      OverIsAChain(up, rank, height, a, b, up[x].value);
    }
  }

  /** At most one node with a given parent (or with none) is over `x`. */
  lemma OverIsUnique(up: Links, rank: map<int, nat>, height: nat, a: int, b: int, x: int)
    requires Forest(up, rank, height) && x in up && a in up && b in up
    requires Over(up, rank, height, a, x) && Over(up, rank, height, b, x)
    requires up[a] == up[b]
    ensures a == b
  {
    OverIsAChain(up, rank, height, a, b, x);
    if a != b {
      if Over(up, rank, height, a, b) {
        OverRanks(up, rank, height, a, up[b].value);
      } else {
        OverRanks(up, rank, height, b, up[a].value);
      }
    }
  }

  /** The node over `x` whose parent is `top`, where `top` is strictly over `x`, or None. */
  lemma {:induction false} OverExists(up: Links, rank: map<int, nat>, height: nat, top: Option<int>,
                                      x: int)
    returns (a: int)
    requires Forest(up, rank, height) && x in up
    requires top.Some? ==> top.value != x && Over(up, rank, height, top.value, x)
    ensures a in up && up[a] == top && Over(up, rank, height, a, x)
    decreases rank[x]
  {
    if up[x] == top {
      a := x;
    } else {
      a := OverExists(up, rank, height, top, up[x].value);
    }
  }

  lemma {:induction false} OverStep(up: Links, rank: map<int, nat>, height: nat, c: int, x: int)
    requires Forest(up, rank, height) && x in up && c in up && up[c].Some?
    requires Over(up, rank, height, c, x)
    ensures Over(up, rank, height, up[c].value, x)
    decreases rank[x]
  {
    if c != x {
      OverStep(up, rank, height, c, up[x].value);
    }
  }

  ghost predicate OneIsOver(up: Links, rank: map<int, nat>, height: nat, ids: seq<int>, x: int)
    requires Forest(up, rank, height) && x in up
  {
    exists c :: c in ids && Over(up, rank, height, c, x)
  }

  predicate Distinct(ids: seq<int>) {
    ids == [] || (ids[0] !in ids[1..] && Distinct(ids[1..]))
  }

  /** `ids` are distinct nodes whose parent is `top`. */
  ghost predicate Siblings(up: Links, ids: seq<int>, top: Option<int>) {
    Distinct(ids) && forall c {:trigger c in ids} :: c in ids ==> c in up && up[c] == top
  }

  /** All of them: every node whose parent is `top` is there. */
  ghost predicate AllSiblings(up: Links, ids: seq<int>, top: Option<int>) {
    Siblings(up, ids, top) && forall c {:trigger c in up} :: c in up && up[c] == top ==> c in ids
  }

  lemma OverBySibling(up: Links, rank: map<int, nat>, height: nat, ids: seq<int>, top: Option<int>, x: int)
    requires Forest(up, rank, height) && x in up && AllSiblings(up, ids, top)
    ensures OneIsOver(up, rank, height, ids, x) <==>
            (top.Some? ==> top.value != x && Over(up, rank, height, top.value, x))
  {
    if c :| c in ids && Over(up, rank, height, c, x) && top.Some? {
      OverStep(up, rank, height, c, x);
      OverRanks(up, rank, height, c, x);
    }
    if top.Some? ==> top.value != x && Over(up, rank, height, top.value, x) {
      var c := OverExists(up, rank, height, top, x);
    }
  }

  /* ---------- The walk of the output follows the links ---------- */

  /** The output lists, for each node, exactly its children: `kids` are their ids. */
  ghost predicate Lists(out: seq<Entry>, toGlobal: GlobalId, up: Links, kids: map<int, seq<int>>) {
    && (forall a :: a in up ==> a in kids)
    && forall a {:trigger kids[a]} :: a in up ==>
      && Find(out, toGlobal(a)).Some? && Find(out, toGlobal(a)).value.children == Globals(toGlobal, kids[a])
      && AllSiblings(up, kids[a], Some(a))
  }

  /** Below distinct siblings, the walk meets `x` once if one of them is over it, and not at all otherwise. */
  lemma {:induction false} WalkCounts(up: Links, rank: map<int, nat>, height: nat, toGlobal: GlobalId,
                                      out: seq<Entry>, kids: map<int, seq<int>>,
                             ids: seq<int>, top: Option<int>, x: int, depth: nat)
    requires Forest(up, rank, height) && Injective(toGlobal) && Lists(out, toGlobal, up, kids)
    requires x in up && Siblings(up, ids, top)
    requires forall c :: c in ids ==> c in rank && rank[c] + depth >= height
    ensures Count(WalkAll(out, Globals(toGlobal, ids), depth), toGlobal(x)) == if OneIsOver(up, rank, height, ids, x)
            then 1 else 0
    decreases depth, |ids|
  {
    if ids == [] {
      assert Globals(toGlobal, ids) == [];
    } else {
      var a := ids[0];
      assert a in ids && rank[a] < height;
      TailOfSiblings(up, ids, top);
      WalkCounts(up, rank, height, toGlobal, out, kids, ids[1..], top, x, depth);
      assert forall c :: c in kids[a] ==> c in up && rank[a] < rank[c];
      WalkCounts(up, rank, height, toGlobal, out, kids, kids[a], Some(a), x, depth - 1);
      OverBySibling(up, rank, height, kids[a], Some(a), x);
      WalkSplits(toGlobal, out, ids, kids[a], x, depth);
      OneOrOther(up, rank, height, ids, top, x);
    }
  }

  lemma TailOfSiblings(up: Links, ids: seq<int>, top: Option<int>)
    requires Siblings(up, ids, top) && ids != []
    ensures Siblings(up, ids[1..], top)
    ensures forall c :: c in ids <==> c == ids[0] || c in ids[1..]
    ensures ids[0] !in ids[1..]
  {
    assert ids == [ids[0]] + ids[1..];
    forall c | c in ids[1..] ensures c in up && up[c] == top {
      assert c in ids;
    }
  }

  /** The walk of a list is the first entry, the walk of its children and the walk of the rest. */
  lemma WalkSplits(toGlobal: GlobalId, out: seq<Entry>, ids: seq<int>, kids: seq<int>, x: int, depth: nat)
    requires Injective(toGlobal) && ids != [] && depth > 0
    requires Find(out, toGlobal(ids[0])).Some? && Find(out, toGlobal(ids[0])).value.children == Globals(toGlobal, kids)
    ensures Count(WalkAll(out, Globals(toGlobal, ids), depth), toGlobal(x)) ==
            (if ids[0] == x then 1 else 0)
            + Count(WalkAll(out, Globals(toGlobal, kids), depth - 1), toGlobal(x))
            + Count(WalkAll(out, Globals(toGlobal, ids[1..]), depth), toGlobal(x))
  {
    var below := WalkAll(out, Globals(toGlobal, kids), depth - 1);
    var rest := WalkAll(out, Globals(toGlobal, ids[1..]), depth);
    assert Globals(toGlobal, ids)[0] == toGlobal(ids[0]) && Globals(toGlobal, ids)[1..] == Globals(toGlobal, ids[1..]);
    assert WalkAll(out, Globals(toGlobal, ids), depth) == ([toGlobal(ids[0])] + below) + rest;
    CountConcat([toGlobal(ids[0])] + below, rest, toGlobal(x));
    assert ([toGlobal(ids[0])] + below)[1..] == below && ([toGlobal(ids[0])] + below)[0] == toGlobal(ids[0]);
    assert Count([toGlobal(ids[0])] + below, toGlobal(x)) ==
      (if toGlobal(ids[0]) == toGlobal(x) then 1 else 0) + Count(below, toGlobal(x));
    var back: string -> int :| Inverts(back, toGlobal);
    assert back(toGlobal(ids[0])) == ids[0] && back(toGlobal(x)) == x;
  }

  /** Of distinct siblings, either the first is over `x`, or one of the others, or none. */
  lemma OneOrOther(up: Links, rank: map<int, nat>, height: nat, ids: seq<int>, top: Option<int>, x: int)
    requires Forest(up, rank, height) && x in up && Siblings(up, ids, top) && ids != []
    ensures OneIsOver(up, rank, height, ids, x) <==>
            Over(up, rank, height, ids[0], x) || OneIsOver(up, rank, height, ids[1..], x)
    ensures !(Over(up, rank, height, ids[0], x) && OneIsOver(up, rank, height, ids[1..], x))
  {
    TailOfSiblings(up, ids, top);
    if Over(up, rank, height, ids[0], x) {
      assert ids[0] in ids;
      if c :| c in ids[1..] && Over(up, rank, height, c, x) {
        OverIsUnique(up, rank, height, ids[0], c, x);
      }
    }
  }

  /* ---------- The output of `BuildFlatTree` ---------- */

  lemma FindEntry(nodes: seq<Node>, toGlobal: GlobalId, out: seq<Entry>, i: nat)
    requires UniqueIds(nodes) && Injective(toGlobal) && IsFlatTree(nodes, toGlobal, out)
    requires i < |nodes|
    ensures Find(out, toGlobal(nodes[i].id)) == Some(out[i])
  {
    assert out[i] in out && out[i].id == toGlobal(nodes[i].id);
    var e := Find(out, toGlobal(nodes[i].id)).value;
    var j :| 0 <= j < |out| && out[j] == e;
    var back: string -> int :| Inverts(back, toGlobal);
    assert back(toGlobal(nodes[j].id)) == nodes[j].id && back(toGlobal(nodes[i].id)) == nodes[i].id;
    assert j == i;
  }

  lemma {:induction false} DistinctAppend(ids: seq<int>, last: int)
    requires Distinct(ids) && last !in ids
    ensures Distinct(ids + [last])
  {
    if ids != [] {
      assert (ids + [last])[1..] == ids[1..] + [last];
      DistinctAppend(ids[1..], last);
    }
  }

  lemma {:induction false} ChildrenAreDistinct(nodes: seq<Node>, id: int)
    requires UniqueIds(nodes)
    ensures Distinct(Children(nodes, id))
  {
    if nodes != [] {
      var n := |nodes| - 1;
      ChildrenAreDistinct(nodes[..n], id);
      ChildrenAre(nodes[..n], id, nodes[n].id);
      var before := Children(nodes[..n], id);
      assert before + [] == before;
      assert nodes[n].id !in before;
      DistinctAppend(before, nodes[n].id);
    }
  }

  lemma ChildrenAreSiblings(nodes: seq<Node>, up: Links, id: int)
    requires UniqueIds(nodes) && AreLinks(nodes, up) && id in up
    ensures AllSiblings(up, Children(nodes, id), Some(id))
  {
    var ids := Children(nodes, id);
    ChildrenAreDistinct(nodes, id);
    forall c | c in ids ensures c in up && up[c] == Some(id) {
      ChildrenAre(nodes, id, c);
      var i :| 0 <= i < |nodes| && nodes[i].id == c && nodes[i].Parent() == Some(id);
      assert up[nodes[i].id] == Above(nodes, nodes[i]);
    }
    forall c | c in up && up[c] == Some(id) ensures c in ids {
      var i :| 0 <= i < |nodes| && nodes[i].id == c;
      assert up[nodes[i].id] == Above(nodes, nodes[i]);
      ChildrenAre(nodes, id, c);
    }
  }

  lemma FlatTreeLists(nodes: seq<Node>, toGlobal: GlobalId, out: seq<Entry>,
                      up: Links)
    returns (kids: map<int, seq<int>>)
    requires UniqueIds(nodes) && Injective(toGlobal) && IsFlatTree(nodes, toGlobal, out) && AreLinks(nodes, up)
    ensures Lists(out, toGlobal, up, kids)
  {
    kids := map a | a in up :: Children(nodes, a);
    forall a | a in up
      ensures Find(out, toGlobal(a)).Some? && Find(out, toGlobal(a)).value.children == Globals(toGlobal, kids[a])
      ensures AllSiblings(up, kids[a], Some(a))
    {
      var i :| 0 <= i < |nodes| && nodes[i].id == a;
      FindEntry(nodes, toGlobal, out, i);
      ChildrenAreSiblings(nodes, up, a);
    }
  }

  /** The ids of the nodes whose parent is not in the list. */
  function RootIds(nodes: seq<Node>, among: seq<Node>): seq<int> {
    if among == [] then []
    else
      RootIds(nodes, among[..|among| - 1]) +
      (if Above(nodes, among[|among| - 1]).Some? then [] else [among[|among| - 1].id])
  }

  lemma {:induction false} RootIdsAre(nodes: seq<Node>, upto: nat, id: int)
    requires UniqueIds(nodes) && upto <= |nodes|
    ensures id in RootIds(nodes, nodes[..upto]) <==>
            exists i :: 0 <= i < upto && nodes[i].id == id && Above(nodes, nodes[i]).None?
  {
    if upto > 0 {
      TakeOne(nodes, upto - 1);
      RootIdsAre(nodes, upto - 1, id);
    }
  }

  lemma {:induction false} RootIdsAreDistinct(nodes: seq<Node>, upto: nat)
    requires UniqueIds(nodes) && upto <= |nodes|
    ensures Distinct(RootIds(nodes, nodes[..upto]))
  {
    if upto > 0 {
      TakeOne(nodes, upto - 1);
      RootIdsAreDistinct(nodes, upto - 1);
      RootIdsAre(nodes, upto - 1, nodes[upto - 1].id);
      var before := RootIds(nodes, nodes[..upto - 1]);
      assert before + [] == before;
      DistinctAppend(before, nodes[upto - 1].id);
    }
  }

  lemma {:induction false} RootsAre(nodes: seq<Node>, toGlobal: GlobalId, out: seq<Entry>, upto: nat)
    requires UniqueIds(nodes) && Injective(toGlobal) && IsFlatTree(nodes, toGlobal, out)
    requires upto <= |nodes|
    ensures Roots(out, out[..upto]) == Globals(toGlobal, RootIds(nodes, nodes[..upto]))
  {
    if upto > 0 {
      RootsAre(nodes, toGlobal, out, upto - 1);
      TakeOne(out, upto - 1);
      TakeOne(nodes, upto - 1);
      ChildOfSome(nodes, toGlobal, out, upto - 1);
      GlobalsAppend(toGlobal, RootIds(nodes, nodes[..upto - 1]), nodes[upto - 1].id);
    }
  }

  lemma GlobalsAppend(toGlobal: GlobalId, ids: seq<int>, id: int)
    ensures Globals(toGlobal, ids + [id]) == Globals(toGlobal, ids) + [toGlobal(id)]
    ensures Globals(toGlobal, ids + []) == Globals(toGlobal, ids) + []
  {
  }

  lemma ChildOfSome(nodes: seq<Node>, toGlobal: GlobalId, out: seq<Entry>, i: nat)
    requires UniqueIds(nodes) && Injective(toGlobal) && IsFlatTree(nodes, toGlobal, out)
    requires i < |nodes|
    ensures IsChild(out, out[i].id) <==> Above(nodes, nodes[i]).Some?
  {
    if Above(nodes, nodes[i]).Some? {
      var j :| 0 <= j < |nodes| && nodes[j].id == nodes[i].Parent().value;
      ParentsAreRecovered(nodes, toGlobal, out, i, j);
      assert out[j] in out;
    }
    if e :| e in out && out[i].id in e.children {
      var j :| 0 <= j < |out| && out[j] == e;
      ParentsAreRecovered(nodes, toGlobal, out, i, j);
    }
  }

  /** Following `children` from the entries that are nobody's child visits every entry exactly once. */
  lemma {:induction false} ForestIsPreserved(nodes: seq<Node>, rank: map<int, nat>, height: nat,
                                        toGlobal: GlobalId, out: seq<Entry>, i: nat)
    requires UniqueIds(nodes) && Forest(LinksOf(nodes, nodes), rank, height)
    requires Injective(toGlobal) && IsFlatTree(nodes, toGlobal, out)
    requires i < |nodes|
    ensures Count(WalkAll(out, Roots(out, out), height), out[i].id) == 1
  {
    var x := nodes[i].id;
    var up, ids, kids := WalkOfOutput(nodes, toGlobal, out);
    WalkCounts(up, rank, height, toGlobal, out, kids, ids, None, x, height);
    OverBySibling(up, rank, height, ids, None, x);
  }

  lemma RootsAreSiblings(nodes: seq<Node>, up: Links)
    requires UniqueIds(nodes) && AreLinks(nodes, up)
    ensures AllSiblings(up, RootIds(nodes, nodes[..|nodes|]), None)
  {
    var ids := RootIds(nodes, nodes[..|nodes|]);
    RootIdsAreDistinct(nodes, |nodes|);
    forall c | c in ids ensures c in up && up[c] == None {
      RootIdsAre(nodes, |nodes|, c);
      var i :| 0 <= i < |nodes| && nodes[i].id == c && Above(nodes, nodes[i]).None?;
      assert up[nodes[i].id] == Above(nodes, nodes[i]);
    }
    forall c | c in up && up[c] == None ensures c in ids {
      RootIdsAre(nodes, |nodes|, c);
      var i :| 0 <= i < |nodes| && nodes[i].id == c;
      assert up[nodes[i].id] == Above(nodes, nodes[i]);
    }
  }

  /* ---------- Only forests are walked completely ---------- */

  /** At most `n` links lead from `x` to a node without parent. */
  ghost predicate Grounded(up: Links, x: int, n: nat)
    decreases n
  {
    x in up && (up[x].None? || (n > 0 && Grounded(up, up[x].value, n - 1)))
  }

  lemma {:induction false} GroundedMore(up: Links, x: int, n: nat, more: nat)
    requires Grounded(up, x, n) && n <= more
    ensures Grounded(up, x, more)
    decreases n
  {
    if up[x].Some? {
      GroundedMore(up, up[x].value, n - 1, more - 1);
    }
  }

  ghost function LinkCount(up: Links, x: int, n: nat): nat
    requires Grounded(up, x, n)
    decreases n
  {
    if up[x].None? then 0 else 1 + LinkCount(up, up[x].value, n - 1)
  }

  /** The number of links does not depend on the bound. */
  lemma {:induction false} LinksAgree(up: Links, x: int, n: nat, m: nat)
    requires Grounded(up, x, n) && Grounded(up, x, m)
    ensures LinkCount(up, x, n) == LinkCount(up, x, m) <= n
    decreases n
  {
    if up[x].Some? {
      LinksAgree(up, up[x].value, n - 1, m - 1);
    }
  }

  lemma GroundedIsForest(up: Links, n: nat) returns (rank: map<int, nat>)
    requires forall x :: x in up ==> Grounded(up, x, n)
    ensures Forest(up, rank, n + 1)
  {
    rank := map x | x in up :: LinkCount(up, x, n);
    forall x | x in up
      ensures rank[x] < n + 1
      ensures up[x].Some? ==> up[x].value in up && rank[up[x].value] < rank[x]
    {
      LinksAgree(up, x, n, n);
      if up[x].Some? {
        assert Grounded(up, x, n) && Grounded(up, up[x].value, n - 1);
        LinksAgree(up, up[x].value, n, n - 1);
      }
    }
  }

  /** What the walk meets within `depth` steps below nodes that `n` links ground is grounded by `n + depth`. */
  lemma {:induction false} WalkIsGrounded(up: Links, toGlobal: GlobalId, out: seq<Entry>, kids: map<int, seq<int>>,
                                        ids: seq<int>, depth: nat, n: nat, x: int)
    requires Injective(toGlobal) && Lists(out, toGlobal, up, kids)
    requires forall c {:trigger c in ids} :: c in ids ==> Grounded(up, c, n)
    requires toGlobal(x) in WalkAll(out, Globals(toGlobal, ids), depth)
    ensures Grounded(up, x, n + depth)
    decreases depth, |ids|
  {
    var a := ids[0];
    assert Globals(toGlobal, ids)[0] == toGlobal(a) && Globals(toGlobal, ids)[1..] == Globals(toGlobal, ids[1..]);
    assert a in ids;
    if toGlobal(x) in Walk(out, toGlobal(a), depth) {
      if toGlobal(x) == toGlobal(a) {
        var back: string -> int :| Inverts(back, toGlobal);
        assert back(toGlobal(a)) == a && back(toGlobal(x)) == x;
        GroundedMore(up, a, n, n + depth);
      } else {
        assert AllSiblings(up, kids[a], Some(a));
        WalkIsGrounded(up, toGlobal, out, kids, kids[a], depth - 1, n + 1, x);
      }
    } else {
      forall c {:trigger c in ids[1..]} | c in ids[1..] ensures Grounded(up, c, n) {
        assert c in ids;
      }
      WalkIsGrounded(up, toGlobal, out, kids, ids[1..], depth, n, x);
    }
  }

  lemma {:induction false} CountedIsMember(s: seq<string>, x: string)
    requires Count(s, x) > 0
    ensures x in s
  {
    if s[0] != x {
      CountedIsMember(s[1..], x);
    }
  }

  /** The walk from the entries that are nobody's child visits every entry exactly once. */
  ghost predicate VisitsAllOnce(out: seq<Entry>, depth: nat) {
    forall i :: 0 <= i < |out| ==> Count(WalkAll(out, Roots(out, out), depth), out[i].id) == 1
  }

  /** The output's links and roots, as the proofs above take them. */
  lemma WalkOfOutput(nodes: seq<Node>, toGlobal: GlobalId, out: seq<Entry>)
    returns (up: Links, ids: seq<int>, kids: map<int, seq<int>>)
    requires UniqueIds(nodes) && Injective(toGlobal) && IsFlatTree(nodes, toGlobal, out)
    ensures up == LinksOf(nodes, nodes) && AreLinks(nodes, up)
    ensures Roots(out, out) == Globals(toGlobal, ids) && AllSiblings(up, ids, None)
    ensures Lists(out, toGlobal, up, kids)
  {
    up := LinksOf(nodes, nodes);
    ids := RootIds(nodes, nodes[..|nodes|]);
    LinksAre(nodes, |nodes|);
    TakeAll(nodes);
    RootsAre(nodes, toGlobal, out, |nodes|);
    TakeAll(out);
    RootsAreSiblings(nodes, up);
    kids := FlatTreeLists(nodes, toGlobal, out, up);
  }

  lemma VisitedIsForest(nodes: seq<Node>, toGlobal: GlobalId, out: seq<Entry>, depth: nat) returns (rank: map<int, nat>)
    requires UniqueIds(nodes) && Injective(toGlobal) && IsFlatTree(nodes, toGlobal, out)
    requires VisitsAllOnce(out, depth)
    ensures Forest(LinksOf(nodes, nodes), rank, depth + 1)
  {
    var up, ids, kids := WalkOfOutput(nodes, toGlobal, out);
    forall x | x in up ensures Grounded(up, x, depth) {
      var i :| 0 <= i < |nodes| && nodes[i].id == x;
      assert out[i].id == toGlobal(x);
      CountedIsMember(WalkAll(out, Roots(out, out), depth), out[i].id);
      WalkIsGrounded(up, toGlobal, out, kids, ids, depth, 0, x);
    }
    rank := GroundedIsForest(up, depth);
  }

  ghost predicate IsForest(nodes: seq<Node>) {
    exists rank: map<int, nat>, height: nat :: Forest(LinksOf(nodes, nodes), rank, height)
  }

  /**
   Following `children` from the entries that are nobody's child visits every entry exactly once if
   and only if the parent links go round nowhere.
   */
  lemma ForestExactly(nodes: seq<Node>, toGlobal: GlobalId, out: seq<Entry>)
    requires UniqueIds(nodes) && Injective(toGlobal) && IsFlatTree(nodes, toGlobal, out)
    ensures (exists depth :: VisitsAllOnce(out, depth)) <==> IsForest(nodes)
  {
    if depth :| VisitsAllOnce(out, depth) {
      var rank := VisitedIsForest(nodes, toGlobal, out, depth);
    }
    if IsForest(nodes) {
      var rank: map<int, nat>, height: nat :| Forest(LinksOf(nodes, nodes), rank, height);
      forall i | 0 <= i < |out| ensures Count(WalkAll(out, Roots(out, out), height), out[i].id) == 1 {
        ForestIsPreserved(nodes, rank, height, toGlobal, out, i);
      }
      assert VisitsAllOnce(out, height);
    }
  }

  /** The walk meets nothing but entries of the list. */
  lemma {:induction false} WalkStaysInside(out: seq<Entry>, ids: seq<string>, depth: nat, x: string)
    requires x in WalkAll(out, ids, depth)
    ensures exists i :: 0 <= i < |out| && out[i].id == x
    decreases depth, |ids|
  {
    if x in Walk(out, ids[0], depth) {
      if x != ids[0] {
        WalkStaysInside(out, Find(out, ids[0]).value.children, depth - 1, x);
      }
    } else {
      WalkStaysInside(out, ids[1..], depth, x);
    }
  }
}
