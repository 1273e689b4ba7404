/** What one entry of a flat tree holds, said of the nodes as they are given. */
module FlatTreeEntries {
  import opened Wrappers
  import opened FlatTree

  /** The node names this parent; 0 names none. */
  predicate NamesParent(node: Node, id: int) {
    node.parentId == Some(id) && id != 0
  }

  predicate IsAscending(places: seq<nat>) {
    forall j, k :: 0 <= j < k < |places| ==> places[j] < places[k]
  }

  /** The places, in order, of the nodes that name a parent. */
  predicate ArePlaces(nodes: seq<Node>, id: int, places: seq<nat>) {
    && IsAscending(places)
    && (forall k :: 0 <= k < |places| ==> places[k] < |nodes| && NamesParent(nodes[places[k]], id))
    && (forall i: nat {:trigger nodes[i]} :: i < |nodes| && NamesParent(nodes[i], id) ==> i in places)
  }

  lemma OneMorePlace(nodes: seq<Node>, id: int, before: seq<nat>, n: nat)
    requires |nodes| == n + 1 && ArePlaces(nodes[..n], id, before)
    ensures ArePlaces(nodes, id, before + if NamesParent(nodes[n], id) then [n] else [])
  {
    var places := before + if NamesParent(nodes[n], id) then [n] else [];
    forall i: nat | i < |nodes| && NamesParent(nodes[i], id) ensures i in places {
      if i < n {
        assert nodes[..n][i] == nodes[i];
        assert i in before;
      } else {
        assert places[|before|] == n;
      }
    }
  }

  /** Where the children of an id stand in the input. */
  lemma {:induction false} ChildrenStandAt(nodes: seq<Node>, id: int) returns (places: seq<nat>)
    ensures |places| == |Children(nodes, id)| && ArePlaces(nodes, id, places)
    ensures forall k :: 0 <= k < |places| ==> Children(nodes, id)[k] == nodes[places[k]].id
  {
    if nodes == [] {
      places := [];
    } else {
      var n := |nodes| - 1;
      places := ChildrenStandAt(nodes[..n], id);
      OneMorePlace(nodes, id, places, n);
      places := places + if NamesParent(nodes[n], id) then [n] else [];
    }
  }

  /**
   Entry number `i` has the global id and the text of node number `i`, no text being the empty one,
   and as children the global ids of exactly the nodes that name its id as their parent, in input
   order.
   */
  lemma EntryExactly(nodes: seq<Node>, toGlobal: GlobalId, out: seq<Entry>, i: nat) returns (places: seq<nat>)
    requires IsFlatTree(nodes, toGlobal, out) && i < |nodes|
    ensures |out| == |nodes| && out[i].id == toGlobal(nodes[i].id)
    ensures out[i].text == if nodes[i].text == None then "" else nodes[i].text.value
    ensures ArePlaces(nodes, nodes[i].id, places) && |places| == |out[i].children|
    ensures forall k :: 0 <= k < |places| ==> out[i].children[k] == toGlobal(nodes[places[k]].id)
  {
    places := ChildrenStandAt(nodes, nodes[i].id);
  }
}
