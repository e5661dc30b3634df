/**
 * The identity map that replaces the source's use of `GetHashCode()` as a
 * node's identity: an explicit, non-zero, injective id per node.
 */
module Identity {
  import opened ListGraph

  /** `ids` names every node of `nodes` by a non-zero id, distinct nodes by distinct ids. */
  ghost predicate ValidIds(nodes: seq<ListNode>, ids: map<ListNode, int>) {
    && (forall i :: 0 <= i < |nodes| ==> nodes[i] in ids && ids[nodes[i]] != 0)
    && (forall i, j :: 0 <= i < |nodes| && 0 <= j < |nodes| && i != j ==> ids[nodes[i]] != ids[nodes[j]])
  }

  /** No id is 0, the value an absent id reads as. */
  predicate NonZeroIds(ids: seq<int>) {
    forall i :: 0 <= i < |ids| ==> ids[i] != 0
  }

  /** The ids of `nodes`, position by position. */
  function IdsAlong(nodes: seq<ListNode>, ids: map<ListNode, int>): (along: seq<int>)
    requires forall i :: 0 <= i < |nodes| ==> nodes[i] in ids
    ensures |along| == |nodes|
  {
    seq(|nodes|, i requires 0 <= i < |nodes| && nodes[i] in ids => ids[nodes[i]])
  }

  /**
   * Assigns sequential ids 1, 2, 3, ... along the `next` chain: each node
   * receives exactly one id, at its first visit.
   */
  method AssignIds(head: ListNode?, ghost nodes: seq<ListNode>) returns (ids: map<ListNode, int>)
    requires IsList(head, nodes)
    ensures forall n :: n in ids <==> n in nodes
    ensures forall i :: 0 <= i < |nodes| ==> ids[nodes[i]] == i + 1
    ensures ValidIds(nodes, ids)
    ensures Distinct(IdsAlong(nodes, ids)) && NonZeroIds(IdsAlong(nodes, ids))
  {
    ids := map[];
    var node := head;
    var nextId := 1;
    ghost var k := 0;
    while node != null
      invariant 0 <= k <= |nodes| && nextId == k + 1
      invariant node == (if k < |nodes| then nodes[k] else null)
      invariant forall n :: n in ids ==> exists i :: 0 <= i < k && nodes[i] == n
      invariant forall i :: 0 <= i < k ==> nodes[i] in ids && ids[nodes[i]] == i + 1
      decreases |nodes| - k
    {
      ids := ids[node := nextId];
      nextId := nextId + 1;
      node := node.next;
      k := k + 1;
    }
  }
}
