module Sivoplyasov {
  import opened Results
  import opened ListGraph
  import opened Identity
  import opened FlatWire

  /** The clone of `x` in `copedNodes`, or null while it has none. */
  function CloneOf(copedNodes: map<ListNode, ListNode>, x: ListNode?): ListNode? {
    if x != null && x in copedNodes then copedNodes[x] else null
  }

  /** The identity map only holds originals and never gives two originals the same clone. */
  ghost predicate MapOk(nodes: seq<ListNode>, copedNodes: map<ListNode, ListNode>) {
    && (forall x :: x in copedNodes ==> x in nodes)
    && (forall x, y :: x in copedNodes && y in copedNodes && x != y ==> copedNodes[x] != copedNodes[y])
  }

  /**
   * The first `linked` originals have clones, and so have the random
   * targets of the first `randoms` originals (`shape` gives their positions).
   */
  ghost predicate Covered(nodes: seq<ListNode>, shape: Shape, copedNodes: map<ListNode, ListNode>, linked: nat, randoms: nat) {
    && |shape| == |nodes| && WellFormed(shape) && randoms <= linked <= |nodes|
    && (forall i :: 0 <= i < linked ==> nodes[i] in copedNodes)
    && (forall i :: 0 <= i < randoms && shape[i].random.Some? ==> nodes[shape[i].random.value] in copedNodes)
  }

  /** Every clone carries the payload of its original's position. */
  ghost predicate ClonedData(nodes: seq<ListNode>, shape: Shape, copedNodes: map<ListNode, ListNode>)
    requires |shape| == |nodes|
    reads copedNodes.Values
  {
    forall i {:trigger copedNodes[nodes[i]].data} :: 0 <= i < |nodes| && nodes[i] in copedNodes ==>
      copedNodes[nodes[i]].data == shape[i].data
  }

  /** The `previous` of the clone of original `i` once the first `linked` clones are chained. */
  function LinkedPrevious(nodes: seq<ListNode>, copedNodes: map<ListNode, ListNode>, linked: nat, i: nat): ListNode?
    requires i < |nodes|
  {
    if 0 < i < linked then CloneOf(copedNodes, nodes[i - 1]) else null
  }

  /** The `next` of the clone of original `i` once the first `chained` clones are chained. */
  function LinkedNext(nodes: seq<ListNode>, copedNodes: map<ListNode, ListNode>, chained: nat, i: nat): ListNode?
    requires i < |nodes|
  {
    if i + 1 < chained && i + 1 < |nodes| then CloneOf(copedNodes, nodes[i + 1]) else null
  }

  /** The `random` of the clone of original `i` once the first `randoms` random edges are copied. */
  function LinkedRandom(nodes: seq<ListNode>, shape: Shape, copedNodes: map<ListNode, ListNode>, randoms: nat, i: nat): ListNode?
    requires |shape| == |nodes| && WellFormed(shape) && i < |nodes|
  {
    if i < randoms && shape[i].random.Some? then CloneOf(copedNodes, nodes[shape[i].random.value]) else null
  }

  /** The `previous` links among the first `linked` clones, null elsewhere. */
  ghost predicate ChainedPrevious(nodes: seq<ListNode>, copedNodes: map<ListNode, ListNode>, linked: nat)
    reads copedNodes.Values
  {
    forall i {:trigger copedNodes[nodes[i]].previous} :: 0 <= i < |nodes| && nodes[i] in copedNodes ==>
      copedNodes[nodes[i]].previous == LinkedPrevious(nodes, copedNodes, linked, i)
  }

  /** The `next` links among the first `chained` clones, null elsewhere. */
  ghost predicate ChainedNext(nodes: seq<ListNode>, copedNodes: map<ListNode, ListNode>, chained: nat)
    reads copedNodes.Values
  {
    forall i {:trigger copedNodes[nodes[i]].next} :: 0 <= i < |nodes| && nodes[i] in copedNodes ==>
      copedNodes[nodes[i]].next == LinkedNext(nodes, copedNodes, chained, i)
  }

  /** The re-pointed `random` edges of the first `randoms` clones, null elsewhere. */
  ghost predicate PointedRandom(nodes: seq<ListNode>, shape: Shape, copedNodes: map<ListNode, ListNode>, randoms: nat)
    requires |shape| == |nodes| && WellFormed(shape)
    reads copedNodes.Values
  {
    forall i {:trigger copedNodes[nodes[i]].random} :: 0 <= i < |nodes| && nodes[i] in copedNodes ==>
      copedNodes[nodes[i]].random == LinkedRandom(nodes, shape, copedNodes, randoms, i)
  }

  /**
   * All that the copy loop keeps about the clones made so far: the first
   * `linked` have their `previous` set, the first `chained` their `next`,
   * the first `randoms` their `random`.
   */
  ghost predicate Linked(nodes: seq<ListNode>, shape: Shape, copedNodes: map<ListNode, ListNode>, linked: nat, chained: nat, randoms: nat)
    reads copedNodes.Values
  {
    && MapOk(nodes, copedNodes) && Covered(nodes, shape, copedNodes, linked, randoms) && chained <= linked
    && ClonedData(nodes, shape, copedNodes)
    && ChainedPrevious(nodes, copedNodes, linked) && ChainedNext(nodes, copedNodes, chained)
    && PointedRandom(nodes, shape, copedNodes, randoms)
  }

  /**
   * Registering a fresh clone of original `p`, not cloned yet, keeps every
   * clone's fields as `Linked` describes them.
   */
  lemma AddClone(nodes: seq<ListNode>, shape: Shape, copedNodes: map<ListNode, ListNode>, linked: nat, chained: nat, randoms: nat,
                  p: nat, clone: ListNode)
    requires Distinct(nodes) && Linked(nodes, shape, copedNodes, linked, chained, randoms)
    requires p < |nodes| && nodes[p] !in copedNodes
    requires forall x :: x in copedNodes ==> copedNodes[x] != clone
    requires clone.data == shape[p].data && clone.next == null && clone.previous == null && clone.random == null
    ensures Linked(nodes, shape, copedNodes[nodes[p] := clone], linked, chained, randoms)
  {
    var m := copedNodes[nodes[p] := clone];
    forall i | 0 <= i < |nodes| && nodes[i] in m
      ensures m[nodes[i]].data == shape[i].data
      ensures m[nodes[i]].previous == LinkedPrevious(nodes, m, linked, i)
      ensures m[nodes[i]].next == LinkedNext(nodes, m, chained, i)
      ensures m[nodes[i]].random == LinkedRandom(nodes, shape, m, randoms, i)
    {
      if 0 < i < linked {
        assert nodes[i - 1] in copedNodes;
      }
      if i + 1 < chained {
        assert nodes[i + 1] in copedNodes;
      }
      if i == p {
        assert i >= linked;
      } else {
        assert m[nodes[i]] == copedNodes[nodes[i]];
      }
    }
  }

  /**
   * The clone of original `p` from the identity map, or a fresh one made and
   * registered when there is none; clones already made keep their entries.
   */
  method GetOrClone(original: ListNode, copedNodes: map<ListNode, ListNode>, ghost nodes: seq<ListNode>, ghost shape: Shape,
                    ghost linked: nat, ghost chained: nat, ghost randoms: nat, ghost p: nat)
    returns (clone: ListNode, copedNodes': map<ListNode, ListNode>)
    requires Distinct(nodes) && Linked(nodes, shape, copedNodes, linked, chained, randoms)
    requires p < |nodes| && original == nodes[p] && original.data == shape[p].data
    ensures Linked(nodes, shape, copedNodes', linked, chained, randoms)
    ensures original in copedNodes' && copedNodes'[original] == clone
    ensures copedNodes' == if original in copedNodes then copedNodes else copedNodes[original := clone]
    ensures forall x :: x in copedNodes ==> x in copedNodes' && copedNodes'[x] == copedNodes[x]
    ensures forall x :: x in copedNodes' && x !in copedNodes ==> fresh(copedNodes'[x])
  {
    if original in copedNodes {
      clone, copedNodes' := copedNodes[original], copedNodes;
    } else {
      clone := new ListNode(original.data);
      AddClone(nodes, shape, copedNodes, linked, chained, randoms, p, clone);
      copedNodes' := copedNodes[original := clone];
    }
  }

  /** Sets the back-reference of the clone of original `k` to the clone of original `k - 1`. */
  method LinkPrevious(copedNode: ListNode, previous: ListNode?, ghost nodes: seq<ListNode>, ghost shape: Shape,
                      ghost copedNodes: map<ListNode, ListNode>, ghost k: nat)
    requires Distinct(nodes) && Linked(nodes, shape, copedNodes, k, k, k) && k < |nodes|
    requires nodes[k] in copedNodes && copedNodes[nodes[k]] == copedNode
    requires previous == (if k == 0 then null else copedNodes[nodes[k - 1]])
    modifies copedNode`previous
    ensures Linked(nodes, shape, copedNodes, k + 1, k, k)
  {
    copedNode.previous := previous;
    forall i | 0 <= i < |nodes| && nodes[i] in copedNodes
      ensures copedNodes[nodes[i]].data == shape[i].data
      ensures copedNodes[nodes[i]].previous == LinkedPrevious(nodes, copedNodes, k + 1, i)
      ensures copedNodes[nodes[i]].next == LinkedNext(nodes, copedNodes, k, i)
      ensures copedNodes[nodes[i]].random == LinkedRandom(nodes, shape, copedNodes, k, i)
    {
      if i != k {
        assert copedNodes[nodes[i]] != copedNode;
      }
    }
  }

  /** Makes the clone of original `k` the successor of the clone of original `k - 1`, if there is one. */
  method LinkNext(previous: ListNode?, copedNode: ListNode, ghost nodes: seq<ListNode>, ghost shape: Shape,
                  ghost copedNodes: map<ListNode, ListNode>, ghost k: nat)
    requires Distinct(nodes) && Linked(nodes, shape, copedNodes, k + 1, k, k) && k < |nodes|
    requires nodes[k] in copedNodes && copedNodes[nodes[k]] == copedNode
    requires previous == (if k == 0 then null else copedNodes[nodes[k - 1]])
    modifies (if previous == null then {} else {previous})`next
    ensures Linked(nodes, shape, copedNodes, k + 1, k + 1, k)
  {
    if previous != null {
      previous.next := copedNode;
    }
    forall i | 0 <= i < |nodes| && nodes[i] in copedNodes
      ensures copedNodes[nodes[i]].data == shape[i].data
      ensures copedNodes[nodes[i]].previous == LinkedPrevious(nodes, copedNodes, k + 1, i)
      ensures copedNodes[nodes[i]].next == LinkedNext(nodes, copedNodes, k + 1, i)
      ensures copedNodes[nodes[i]].random == LinkedRandom(nodes, shape, copedNodes, k, i)
    {
      if i != k - 1 {
        assert copedNodes[nodes[i]] != previous;
      }
    }
  }

  /**
   * Points the clone of original `k` at the clone of its random target
   * `randomToCopy`, the original at position `shape[k].random`, cloning the
   * target first when the walk has not reached it yet.
   */
  method CopyRandom(copedNode: ListNode, randomToCopy: ListNode, copedNodes: map<ListNode, ListNode>,
                    ghost nodes: seq<ListNode>, ghost shape: Shape, ghost k: nat)
    returns (copedNodes': map<ListNode, ListNode>)
    requires Distinct(nodes) && k < |nodes| && Linked(nodes, shape, copedNodes, k + 1, k + 1, k)
    requires nodes[k] in copedNodes && copedNodes[nodes[k]] == copedNode
    requires shape[k].random.Some? && randomToCopy == nodes[shape[k].random.value]
    requires randomToCopy.data == shape[shape[k].random.value].data
    modifies copedNode`random
    ensures Linked(nodes, shape, copedNodes', k + 1, k + 1, k + 1)
    ensures randomToCopy in copedNodes' && copedNodes' == copedNodes[randomToCopy := copedNodes'[randomToCopy]]
    ensures forall x :: x in copedNodes ==> x in copedNodes' && copedNodes'[x] == copedNodes[x]
    ensures forall x :: x in copedNodes' && x !in copedNodes ==> fresh(copedNodes'[x])
  {
    var copyOfRandom;
    copyOfRandom, copedNodes' := GetOrClone(randomToCopy, copedNodes, nodes, shape, k + 1, k + 1, k, shape[k].random.value);
    SetRandom(copedNode, copyOfRandom, nodes, shape, copedNodes', k);
  }

  /** Sets the `random` of the clone of original `k` to `copyOfRandom`, the clone of its random target. */
  method SetRandom(copedNode: ListNode, copyOfRandom: ListNode, ghost nodes: seq<ListNode>, ghost shape: Shape,
                   ghost copedNodes: map<ListNode, ListNode>, ghost k: nat)
    requires Distinct(nodes) && k < |nodes| && Linked(nodes, shape, copedNodes, k + 1, k + 1, k)
    requires nodes[k] in copedNodes && copedNodes[nodes[k]] == copedNode
    requires shape[k].random.Some? && nodes[shape[k].random.value] in copedNodes
    requires copedNodes[nodes[shape[k].random.value]] == copyOfRandom
    modifies copedNode`random
    ensures Linked(nodes, shape, copedNodes, k + 1, k + 1, k + 1)
  {
    copedNode.random := copyOfRandom;
    forall i | 0 <= i < |nodes| && nodes[i] in copedNodes
      ensures copedNodes[nodes[i]].data == shape[i].data
      ensures copedNodes[nodes[i]].previous == LinkedPrevious(nodes, copedNodes, k + 1, i)
      ensures copedNodes[nodes[i]].next == LinkedNext(nodes, copedNodes, k + 1, i)
      ensures copedNodes[nodes[i]].random == LinkedRandom(nodes, shape, copedNodes, k + 1, i)
    {
      if i != k {
        assert copedNodes[nodes[i]] != copedNode;
      }
    }
  }

  /** An original without a random edge leaves nothing to copy for `random`. */
  lemma SkipRandom(nodes: seq<ListNode>, shape: Shape, copedNodes: map<ListNode, ListNode>, k: nat)
    requires k < |nodes| && Linked(nodes, shape, copedNodes, k + 1, k + 1, k) && shape[k].random.None?
    ensures Linked(nodes, shape, copedNodes, k + 1, k + 1, k + 1)
  {
    forall i | 0 <= i < |nodes| && nodes[i] in copedNodes
      ensures copedNodes[nodes[i]].random == LinkedRandom(nodes, shape, copedNodes, k + 1, i)
    {
      assert LinkedRandom(nodes, shape, copedNodes, k + 1, i) == LinkedRandom(nodes, shape, copedNodes, k, i);
    }
  }

  /** Once every original is linked, the clones form a copy of the originals. */
  lemma Finished(head: ListNode?, nodes: seq<ListNode>, copedNodes: map<ListNode, ListNode>, copy: ListNode?, clones: seq<ListNode>)
    requires IsList(head, nodes) && Linked(nodes, ShapeOf(nodes), copedNodes, |nodes|, |nodes|, |nodes|)
    requires |clones| == |nodes| && forall i :: 0 <= i < |nodes| ==> clones[i] == copedNodes[nodes[i]]
    requires copy == (if |nodes| == 0 then null else clones[0])
    ensures IsList(copy, clones) && PreviousMirrorsNext(clones)
    ensures Corresponds(nodes, clones, copedNodes)
    ensures ShapeOf(clones) == ShapeOf(nodes)
  {
    var shape := ShapeOf(nodes);
    forall i | 0 <= i < |nodes|
      ensures clones[i].data == nodes[i].data
      ensures clones[i].next == NextAt(clones, i)
      ensures clones[i].previous == (if i == 0 then null else clones[i - 1])
      ensures if nodes[i].random == null then clones[i].random == null
              else nodes[i].random in copedNodes && clones[i].random == copedNodes[nodes[i].random]
    {
      ShapeOfRandom(head, nodes, i, i);
      assert clones[i].next == LinkedNext(nodes, copedNodes, |nodes|, i);
      assert clones[i].previous == LinkedPrevious(nodes, copedNodes, |nodes|, i);
      assert clones[i].random == LinkedRandom(nodes, shape, copedNodes, |nodes|, i);
      if shape[i].random.Some? {
        ShapeOfRandom(head, nodes, i, shape[i].random.value);
      }
    }
    CorrespondingShapes(head, nodes, copy, clones, copedNodes);
  }

  /** What the shape of a list says about its node `k`: payload, successor and random target. */
  lemma OriginalAt(head: ListNode?, nodes: seq<ListNode>, k: nat)
    requires IsList(head, nodes) && k < |nodes|
    ensures nodes[k].next == NextAt(nodes, k)
    ensures nodes[k].data == ShapeOf(nodes)[k].data
    ensures ShapeOf(nodes)[k].random.None? ==> nodes[k].random == null
    ensures ShapeOf(nodes)[k].random.Some? ==>
              && nodes[k].random == nodes[ShapeOf(nodes)[k].random.value]
              && nodes[k].random.data == ShapeOf(nodes)[ShapeOf(nodes)[k].random.value].data
  {
    ShapeOfRandom(head, nodes, k, 0);
    if ShapeOf(nodes)[k].random.Some? {
      ShapeOfRandom(head, nodes, k, ShapeOf(nodes)[k].random.value);
      ShapeOfRandom(head, nodes, ShapeOf(nodes)[k].random.value, 0);
    }
  }

  /**
   * One step of the copy loop: the clone of original `k` (looked up or
   * made), linked behind the clone of original `k - 1` and pointed at the
   * clone of its random target.
   */
  method CopyNode(nodeToCopy: ListNode, previous: ListNode?, copedNodes: map<ListNode, ListNode>,
                  ghost nodes: seq<ListNode>, ghost shape: Shape, ghost k: nat)
    returns (copedNode: ListNode, copedNodes': map<ListNode, ListNode>)
    requires Distinct(nodes) && k < |nodes| && Linked(nodes, shape, copedNodes, k, k, k)
    requires nodeToCopy == nodes[k] && nodeToCopy.data == shape[k].data
    requires shape[k].random.None? ==> nodeToCopy.random == null
    requires shape[k].random.Some? ==>
               nodeToCopy.random == nodes[shape[k].random.value] && nodeToCopy.random.data == shape[shape[k].random.value].data
    requires previous == (if k == 0 then null else copedNodes[nodes[k - 1]])
    modifies copedNodes.Values
    ensures Linked(nodes, shape, copedNodes', k + 1, k + 1, k + 1)
    ensures nodes[k] in copedNodes' && copedNodes'[nodes[k]] == copedNode
    ensures shape[k].random.None? ==> copedNodes' == copedNodes[nodes[k] := copedNode]
    ensures shape[k].random.Some? ==>
              && nodes[shape[k].random.value] in copedNodes'
              && copedNodes' == copedNodes[nodes[k] := copedNode][nodes[shape[k].random.value] := copedNodes'[nodes[shape[k].random.value]]]
    ensures forall x :: x in copedNodes ==> x in copedNodes' && copedNodes'[x] == copedNodes[x]
    ensures forall x :: x in copedNodes' && x !in copedNodes ==> fresh(copedNodes'[x])
  {
    copedNode, copedNodes' := GetOrClone(nodeToCopy, copedNodes, nodes, shape, k, k, k, k);
    ghost var registered := copedNodes';
    assert registered == copedNodes[nodes[k] := copedNode];

    LinkPrevious(copedNode, previous, nodes, shape, copedNodes', k);

    LinkNext(previous, copedNode, nodes, shape, copedNodes', k);

    if nodeToCopy.random != null {
      copedNodes' := CopyRandom(copedNode, nodeToCopy.random, copedNodes', nodes, shape, k);
      assert copedNodes' == registered[nodes[shape[k].random.value] := copedNodes'[nodes[shape[k].random.value]]];
    } else {
      SkipRandom(nodes, shape, copedNodes', k);
    }
  }

  /**
   * The copy loop: walks the `next` chain once, consulting the identity map
   * `copedNodes` before every allocation, so that a node first cloned as an
   * earlier node's random target is reused when the walk reaches it.
   */
  method CopyChain(head: ListNode?, ghost nodes: seq<ListNode>, ghost shape: Shape)
    returns (copedHead: ListNode?, copedNodes: map<ListNode, ListNode>)
    requires IsList(head, nodes) && shape == ShapeOf(nodes)
    ensures Linked(nodes, shape, copedNodes, |nodes|, |nodes|, |nodes|)
    ensures forall x :: x in copedNodes ==> fresh(copedNodes[x])
    ensures copedHead == (if |nodes| == 0 then null else copedNodes[nodes[0]])
  {
    copedHead := null;
    var previous: ListNode? := null;
    copedNodes := map[];
    var nodeToCopy := head;
    ghost var k := 0;
    while nodeToCopy != null
      invariant 0 <= k <= |nodes|
      invariant nodeToCopy == (if k < |nodes| then nodes[k] else null)
      invariant Linked(nodes, shape, copedNodes, k, k, k)
      invariant forall x :: x in copedNodes ==> fresh(copedNodes[x])
      invariant previous == (if k == 0 then null else copedNodes[nodes[k - 1]])
      invariant copedHead == (if k == 0 then null else copedNodes[nodes[0]])
      decreases |nodes| - k
    {
      OriginalAt(head, nodes, k);
      var nextToCopy := nodeToCopy.next;
      var copedNode;
      copedNode, copedNodes := CopyNode(nodeToCopy, previous, copedNodes, nodes, shape, k);

      if copedHead == null {
        copedHead := copedNode;
      }

      previous := copedNode;
      nodeToCopy := nextToCopy;
      k := k + 1;
    }
  }

  /**
   * Deep copy: the clone of the head after the copy loop, null for a null
   * head. The clones form a list of fresh nodes with the originals' shape.
   */
  method MakeCopy(head: ListNode?, ghost nodes: seq<ListNode>)
    returns (copy: ListNode?, ghost clones: seq<ListNode>, ghost cloneOf: map<ListNode, ListNode>)
    requires IsList(head, nodes)
    ensures IsList(copy, clones) && PreviousMirrorsNext(clones)
    ensures Corresponds(nodes, clones, cloneOf)
    ensures forall n :: n in cloneOf <==> n in nodes
    ensures ShapeOf(clones) == ShapeOf(nodes)
    ensures forall i :: 0 <= i < |clones| ==> fresh(clones[i])
  {
    var copedNodes;
    copy, copedNodes := CopyChain(head, nodes, ShapeOf(nodes));
    clones := seq(|nodes|, i requires 0 <= i < |nodes| && nodes[i] in copedNodes => copedNodes[nodes[i]]);
    cloneOf := copedNodes;
    Finished(head, nodes, copedNodes, copy, clones);
  }

  // ---------------------------------------------------------------------
  // Decoding: a first pass that builds the chain and resolves the random
  // links it can, and a resolution pass over the deferred ones.

  /** A record whose random link the first pass left open: the node it decoded to and the id it names. */
  datatype Pending = Pending(node: ListNode, randomId: int)

  /** The queue holds the deferred positions of `read` in stream order, each with its node and random id. */
  ghost predicate Queued(read: seq<Record>, nodes: seq<ListNode>, queue: seq<Pending>) {
    && |nodes| == |read|
    && var q := DeferredFrom(read, 0);
       && |queue| == |q|
       && forall a :: 0 <= a < |q| ==> q[a] in q && queue[a] == Pending(nodes[q[a]], read[q[a]].randomId.value)
  }

  /** Queueing the node of one more record when its random id is not registered yet. */
  lemma QueuedStep(read: seq<Record>, nodes: seq<ListNode>, queue: seq<Pending>, rec: Record, current: ListNode,
                   deserializedNodes: map<int, ListNode>)
    requires Queued(read, nodes, queue) && Registry(read + [rec], nodes + [current], deserializedNodes)
    ensures Queued(read + [rec], nodes + [current],
                   if rec.randomId.Some? && rec.randomId.value !in deserializedNodes
                   then queue + [Pending(current, rec.randomId.value)] else queue)
  {
    var s := read + [rec];
    var nodes' := nodes + [current];
    var q := DeferredFrom(read, 0);
    var q' := DeferredFrom(s, 0);
    var deferred := rec.randomId.Some? && rec.randomId.value !in deserializedNodes;
    var queue' := if deferred then queue + [Pending(current, rec.randomId.value)] else queue;
    DeferredSnoc(read, rec, 0);
    assert Deferred(s, |read|) == deferred by {
      assert s[..|read| + 1] == s;
    }
    assert |queue'| == |q'|;
    forall a | 0 <= a < |q'|
      ensures q'[a] in q' && queue'[a] == Pending(nodes'[q'[a]], s[q'[a]].randomId.value)
    {
      if a < |q| {
        assert q'[a] == q[a] && queue'[a] == queue[a];
        assert q[a] in q;
        assert nodes'[q[a]] == nodes[q[a]] && s[q[a]] == read[q[a]];
      } else {
        assert q'[a] == |read| && queue'[a] == Pending(current, rec.randomId.value);
      }
    }
  }

  /**
   * Appending the clone of one more record: a fresh node with the record's
   * payload, its random edge when the target is registered, and linked
   * behind the previous node.
   */
  method AppendNode(currentListNode: ListNode, previousListNode: ListNode?, random: ListNode?,
                    ghost nodes: seq<ListNode>, ghost cells: Shape, ghost cell: Cell)
    requires Realizes(nodes, cells) && currentListNode !in nodes
    requires currentListNode.data == cell.data
    requires currentListNode.next == null && currentListNode.previous == null && currentListNode.random == null
    requires previousListNode == (if |nodes| == 0 then null else nodes[|nodes| - 1])
    requires cell.random.None? ==> random == null
    requires cell.random.Some? ==> cell.random.value <= |nodes| && random == (nodes + [currentListNode])[cell.random.value]
    modifies currentListNode, (if previousListNode == null then {} else {previousListNode})`next
    ensures Realizes(nodes + [currentListNode], cells + [cell])
  {
    if random != null {
      currentListNode.random := random;
    }
    if previousListNode != null {
      currentListNode.previous := previousListNode;
      previousListNode.next := currentListNode;
    }
    var nodes' := nodes + [currentListNode];
    var cells' := cells + [cell];
    forall i | 0 <= i < |nodes'|
      ensures nodes'[i].data == cells'[i].data
      ensures nodes'[i].next == NextAt(nodes', i)
      ensures nodes'[i].previous == (if i == 0 then null else nodes'[i - 1])
      ensures nodes'[i].random == (if cells'[i].random.None? then null else nodes'[cells'[i].random.value])
    {
      if i < |nodes| {
        assert nodes'[i] == nodes[i] && cells'[i] == cells[i];
        if i + 1 < |nodes| {
          assert nodes'[i + 1] == nodes[i + 1];
        }
        if 0 < i {
          assert nodes'[i - 1] == nodes[i - 1];
        }
        if cells[i].random.Some? {
          assert nodes'[cells[i].random.value] == nodes[cells[i].random.value];
        }
      }
    }
  }

  /**
   * One node record read by the first pass (its id is not 0): a new node
   * with the record's payload, registered under the record's id when the id
   * is new, its random edge set when the random id is registered (which
   * includes the record's own id) and queued otherwise, and linked behind
   * the previous node.
   */
  method ReadNode(deserializedNode: Record, result: ListNode?, previousListNode: ListNode?,
                  deserializedNodes: map<int, ListNode>, nodesWithoutRandomLink: seq<Pending>,
                  ghost read: seq<Record>, ghost nodes: seq<ListNode>)
    returns (currentListNode: ListNode, result': ListNode?, deserializedNodes': map<int, ListNode>,
             nodesWithoutRandomLink': seq<Pending>)
    requires Reading(read, nodes, result, previousListNode, deserializedNodes, nodesWithoutRandomLink)
    modifies (if previousListNode == null then {} else {previousListNode})`next
    ensures fresh(currentListNode)
    ensures Reading(read + [deserializedNode], nodes + [currentListNode], result', currentListNode,
                    deserializedNodes', nodesWithoutRandomLink')
  {
    currentListNode := new ListNode(deserializedNode.data);
    ghost var read' := read + [deserializedNode];
    result' := if result == null then currentListNode else result;

    RegistryStep(read, nodes, deserializedNodes, deserializedNode, currentListNode);
    if deserializedNode.id !in deserializedNodes {
      deserializedNodes' := deserializedNodes[deserializedNode.id := currentListNode];
    } else {
      deserializedNodes' := deserializedNodes;
    }

    QueuedStep(read, nodes, nodesWithoutRandomLink, deserializedNode, currentListNode, deserializedNodes');
    nodesWithoutRandomLink' := nodesWithoutRandomLink;
    var random: ListNode? := null;
    if deserializedNode.randomId.Some? {
      var randomHash := deserializedNode.randomId.value;
      if randomHash in deserializedNodes' {
        random := deserializedNodes'[randomHash];
      } else {
        nodesWithoutRandomLink' := nodesWithoutRandomLink + [Pending(currentListNode, randomHash)];
      }
    }

    NewCell(read, nodes, deserializedNode, currentListNode, deserializedNodes');
    FirstPassSnoc(read, deserializedNode);
    AppendNode(currentListNode, previousListNode, random, nodes, FirstPass(read), FirstPassCell(read', |read|));
    assert (nodes + [currentListNode])[0] == result';
    assert (nodes + [currentListNode])[|nodes|] == currentListNode;
  }

  /**
   * What the first pass leaves after reading the records `read`: their
   * nodes `nodes` linked as the first pass links them, the registry, the
   * queue of unresolved random links, and the head `result`.
   */
  ghost predicate ReadThrough(read: seq<Record>, nodes: seq<ListNode>, result: ListNode?,
                              deserializedNodes: map<int, ListNode>, nodesWithoutRandomLink: seq<Pending>)
    reads nodes
  {
    && Realizes(nodes, FirstPass(read)) && Registry(read, nodes, deserializedNodes)
    && Queued(read, nodes, nodesWithoutRandomLink)
    && result == (if |nodes| == 0 then null else nodes[0])
  }

  /** The state of the first pass in the middle of the stream: also the last node read. */
  ghost predicate Reading(read: seq<Record>, nodes: seq<ListNode>, result: ListNode?, previousListNode: ListNode?,
                          deserializedNodes: map<int, ListNode>, nodesWithoutRandomLink: seq<Pending>)
    reads nodes
  {
    && ReadThrough(read, nodes, result, deserializedNodes, nodesWithoutRandomLink)
    && previousListNode == (if |nodes| == 0 then null else nodes[|nodes| - 1])
  }

  /** Before the first token nothing has been read, built, registered or queued. */
  lemma StartReading()
    ensures Reading([], [], null, null, map[], [])
  {
    assert FirstPass([]) == [];
  }

  /**
   * The first-pass cell of a record just read: its payload, and a random
   * edge exactly when its random id is registered, to the node registered
   * under that id.
   */
  lemma NewCell(read: seq<Record>, nodes: seq<ListNode>, rec: Record, current: ListNode, deserializedNodes: map<int, ListNode>)
    requires Registry(read + [rec], nodes + [current], deserializedNodes)
    ensures var cell := FirstPassCell(read + [rec], |read|);
      && cell.data == rec.data
      && (cell.random.None? <==> rec.randomId.None? || rec.randomId.value !in deserializedNodes)
      && (cell.random.Some? ==>
            cell.random.value <= |nodes| && (nodes + [current])[cell.random.value] == deserializedNodes[rec.randomId.value])
  {
    var s := read + [rec];
    assert s[..|read| + 1] == s;
  }

  /** Resolving deferred position `p`: its node's random edge goes to the first node carrying its random id. */
  method SettleLink(node: ListNode, target: ListNode, ghost nodes: seq<ListNode>, ghost recs: seq<Record>, ghost p: nat)
    requires Realizes(nodes, Settled(recs, p)) && p < |recs| && Deferred(recs, p) && node == nodes[p]
    requires PositionOf(recs, recs[p].randomId.value).Some?
    requires target == nodes[PositionOf(recs, recs[p].randomId.value).value]
    modifies node`random
    ensures Realizes(nodes, Settled(recs, p + 1))
  {
    node.random := target;
    SettledStep(recs, p);
    var cells := Settled(recs, p + 1);
    forall i | 0 <= i < |nodes|
      ensures nodes[i].data == cells[i].data
      ensures nodes[i].next == NextAt(nodes, i)
      ensures nodes[i].previous == (if i == 0 then null else nodes[i - 1])
      ensures nodes[i].random == (if cells[i].random.None? then null else nodes[cells[i].random.value])
    {
      if i != p {
        assert nodes[i] != node;
      }
    }
  }

  /**
   * The resolution pass after dequeuing the first `a` deferred records: each
   * named a registered id, and its link is set.
   */
  ghost predicate Resolving(recs: seq<Record>, nodes: seq<ListNode>, a: nat)
    reads nodes
  {
    && a <= |DeferredFrom(recs, 0)|
    && Realizes(nodes, Settled(recs, SettledBefore(recs, a)))
    && forall b :: 0 <= b < a ==> !Dangles(recs, DeferredFrom(recs, 0)[b])
  }

  /**
   * One dequeued entry: when its random id is registered, its node is
   * pointed at the registered node; otherwise the reference dangles.
   */
  method SettleQueued(pending: Pending, deserializedNodes: map<int, ListNode>,
                      ghost recs: seq<Record>, ghost nodes: seq<ListNode>, ghost a: nat)
    returns (settled: bool)
    requires Resolving(recs, nodes, a) && a < |DeferredFrom(recs, 0)| && Registry(recs, nodes, deserializedNodes)
    requires pending.node == nodes[DeferredFrom(recs, 0)[a]] && recs[DeferredFrom(recs, 0)[a]].randomId == Some(pending.randomId)
    modifies nodes
    ensures settled <==> !Dangles(recs, DeferredFrom(recs, 0)[a])
    ensures settled ==> Resolving(recs, nodes, a + 1)
  {
    ghost var q := DeferredFrom(recs, 0);
    assert q[a] in q;
    if pending.randomId !in deserializedNodes {
      assert Dangles(recs, q[a]);
      return false;
    }
    assert !Dangles(recs, q[a]);
    SettleLink(pending.node, deserializedNodes[pending.randomId], nodes, recs, q[a]);
    SettledNext(recs, a);
    return true;
  }

  /**
   * The resolution pass: dequeues the deferred records in stream order and
   * points each one's node at the node registered under its random id. A
   * random id that no record carries is a dangling reference.
   */
  method ResolveRandomLinks(deserializedNodes: map<int, ListNode>, nodesWithoutRandomLink: seq<Pending>,
                            ghost recs: seq<Record>, ghost nodes: seq<ListNode>)
    returns (resolved: Result<(), DecodeError>)
    requires Realizes(nodes, FirstPass(recs)) && Registry(recs, nodes, deserializedNodes)
    requires Queued(recs, nodes, nodesWithoutRandomLink)
    modifies nodes
    ensures resolved.Ok? <==> !HasDangling(recs)
    ensures resolved.Err? ==> resolved.error == DanglingReference
    ensures resolved.Ok? ==> Realizes(nodes, Resolve(recs))
  {
    ghost var q := DeferredFrom(recs, 0);
    var queue := nodesWithoutRandomLink;
    ghost var a := 0;
    SettledFirst(recs);
    while |queue| > 0
      invariant a <= |q| && queue == nodesWithoutRandomLink[a..]
      invariant Resolving(recs, nodes, a)
      decreases |queue|
    {
      var node := queue[0];
      queue := queue[1..];
      assert q[a] in q;
      var settled := SettleQueued(node, deserializedNodes, recs, nodes, a);
      if !settled {
        resolved := Err(DanglingReference);
        return;
      }
      a := a + 1;
    }
    SettledAll(recs);
    NoneDangling(recs);
    resolved := Ok(());
  }

  /**
   * The first pass of the decoder: reads the token stream once, building
   * the chain from the node objects in stream order. A record with id 0
   * stops the pass as soon as it is read.
   */
  method ReadAll(tokens: seq<Token>)
    returns (invalid: bool, result: ListNode?, deserializedNodes: map<int, ListNode>, nodesWithoutRandomLink: seq<Pending>,
             ghost nodes: seq<ListNode>)
    ensures invalid <==> HasZeroId(RecordsOf(tokens))
    ensures !invalid ==> ReadThrough(RecordsOf(tokens), nodes, result, deserializedNodes, nodesWithoutRandomLink)
    ensures forall i :: 0 <= i < |nodes| ==> fresh(nodes[i])
  {
    invalid := false;
    deserializedNodes := map[];
    nodesWithoutRandomLink := [];
    result := null;
    var previousListNode: ListNode? := null;
    nodes := [];
    ghost var read: seq<Record> := [];
    var t := 0;
    StartReading();
    while t < |tokens|
      invariant t <= |tokens| && read == RecordsOf(tokens[..t]) && !HasZeroId(read)
      invariant Reading(read, nodes, result, previousListNode, deserializedNodes, nodesWithoutRandomLink)
      invariant forall i :: 0 <= i < |nodes| ==> fresh(nodes[i])
    {
      invalid, result, previousListNode, deserializedNodes, nodesWithoutRandomLink, read, nodes :=
        ReadToken(tokens[t], result, previousListNode, deserializedNodes, nodesWithoutRandomLink, read, nodes, tokens, t);
      if invalid {
        return;
      }
      t := t + 1;
    }
    assert tokens[..t] == tokens;
  }

  /**
   * One step of the first pass: a node object with id 0 stops it, any
   * other node object is read as the next node, any other token is skipped.
   */
  method ReadToken(token: Token, result: ListNode?, previousListNode: ListNode?,
                   deserializedNodes: map<int, ListNode>, nodesWithoutRandomLink: seq<Pending>,
                   ghost read: seq<Record>, ghost nodes: seq<ListNode>, ghost tokens: seq<Token>, ghost t: nat)
    returns (invalid: bool, result': ListNode?, previousListNode': ListNode?, deserializedNodes': map<int, ListNode>,
             nodesWithoutRandomLink': seq<Pending>, ghost read': seq<Record>, ghost nodes': seq<ListNode>)
    requires t < |tokens| && token == tokens[t] && read == RecordsOf(tokens[..t])
    requires !HasZeroId(read) && Reading(read, nodes, result, previousListNode, deserializedNodes, nodesWithoutRandomLink)
    modifies (if previousListNode == null then {} else {previousListNode})`next
    ensures invalid <==> token.NodeObject? && token.record.id == 0
    ensures invalid ==> HasZeroId(RecordsOf(tokens))
    ensures read' == read + (if token.NodeObject? then [token.record] else []) && read' == RecordsOf(tokens[..t + 1])
    ensures !invalid ==>
              && !HasZeroId(read') && Reading(read', nodes', result', previousListNode', deserializedNodes', nodesWithoutRandomLink')
    ensures nodes <= nodes' && forall i :: |nodes| <= i < |nodes'| ==> fresh(nodes'[i])
  {
    RecordsOfSnoc(tokens, t);
    invalid, result', previousListNode', deserializedNodes', nodesWithoutRandomLink', read', nodes' :=
      false, result, previousListNode, deserializedNodes, nodesWithoutRandomLink, read, nodes;
    if token.NodeObject? {
      var deserializedNode := token.record;
      read' := read + [deserializedNode];
      if deserializedNode.id == 0 {
        ZeroIdRead(tokens, t, read);
        invalid := true;
        return;
      }
      NonZeroSnoc(read, deserializedNode);
      var currentListNode;
      currentListNode, result', deserializedNodes', nodesWithoutRandomLink' :=
        ReadNode(deserializedNode, result, previousListNode, deserializedNodes, nodesWithoutRandomLink, read, nodes);
      previousListNode' := currentListNode;
      nodes' := nodes + [currentListNode];
    }
  }

  /** A node object with id 0 read after the records `read` puts id 0 into the stream. */
  lemma ZeroIdRead(tokens: seq<Token>, t: nat, read: seq<Record>)
    requires t < |tokens| && read == RecordsOf(tokens[..t])
    requires tokens[t].NodeObject? && tokens[t].record.id == 0
    ensures HasZeroId(RecordsOf(tokens))
  {
    RecordsOfSnoc(tokens, t);
    RecordsOfPrefix(tokens, t + 1);
    assert RecordsOf(tokens)[|read|] == tokens[t].record;
  }

  /** A record with a non-zero id keeps the stream free of id 0. */
  lemma NonZeroSnoc(read: seq<Record>, rec: Record)
    requires !HasZeroId(read) && rec.id != 0
    ensures !HasZeroId(read + [rec])
  {
    var s := read + [rec];
    forall i | 0 <= i < |s|
      ensures s[i].id != 0
    {
      if i < |read| {
        assert s[i] == read[i];
      }
    }
  }

  /**
   * The decoder: the first pass, then the resolution of the deferred random
   * links; a stream without node records is refused after both.
   */
  method DeserializeInternal(tokens: seq<Token>) returns (result: Result<ListNode, DecodeError>, ghost nodes: seq<ListNode>)
    ensures DecodeRecords(RecordsOf(tokens)).Err? ==> result == Err(DecodeRecords(RecordsOf(tokens)).error)
    ensures DecodeRecords(RecordsOf(tokens)).Ok? ==>
              && result.Ok? && IsList(result.value, nodes) && PreviousMirrorsNext(nodes)
              && ShapeOf(nodes) == DecodeRecords(RecordsOf(tokens)).value
    ensures forall i :: 0 <= i < |nodes| ==> fresh(nodes[i])
  {
    var invalid, head, deserializedNodes, nodesWithoutRandomLink;
    invalid, head, deserializedNodes, nodesWithoutRandomLink, nodes := ReadAll(tokens);
    if invalid {
      result := Err(InvalidRecord);
      return;
    }
    var resolved := ResolveRandomLinks(deserializedNodes, nodesWithoutRandomLink, RecordsOf(tokens), nodes);
    if resolved.Err? {
      result := Err(resolved.error);
      return;
    }
    if head == null {
      result := Err(NoElements);
      return;
    }
    RealizedList(nodes, Resolve(RecordsOf(tokens)));
    result := Ok(head);
  }

  // ---------------------------------------------------------------------
  // Encoding
  // ---------------------------------------------------------------------

  /**
   * The encoder: an array holding one record per node in `next` order, each
   * with the node's id and payload and, when `random` is set, its target's id.
   */
  method SerializeInternal(node: ListNode?, ghost nodes: seq<ListNode>, ids: map<ListNode, int>) returns (written: seq<Token>)
    requires IsList(node, nodes) && forall i :: 0 <= i < |nodes| ==> nodes[i] in ids
    ensures written == Written(EncodeShape(ShapeOf(nodes), IdsAlong(nodes, ids)))
  {
    ghost var encoded := EncodeShape(ShapeOf(nodes), IdsAlong(nodes, ids));
    written := [OtherToken];
    var current := node;
    ghost var k := 0;
    while current != null
      invariant 0 <= k <= |nodes| && current == (if k < |nodes| then nodes[k] else null)
      invariant |written| == k + 1 && written[0] == OtherToken
      invariant forall i :: 0 <= i < k ==> written[i + 1] == NodeObject(encoded[i])
      decreases |nodes| - k
    {
      var randomId: Option<int> := None;
      if current.random != null {
        var j := IndexOf(nodes, current.random);
        ShapeOfRandom(node, nodes, k, j);
        randomId := Some(ids[current.random]);
      } else {
        ShapeOfRandom(node, nodes, k, k);
      }
      var nodeToSerialize := Record(ids[current], current.data, randomId);
      assert nodeToSerialize == encoded[k];
      written := written + [NodeObject(nodeToSerialize)];
      current := current.next;
      k := k + 1;
    }
    written := written + [OtherToken];
    assert written == Written(encoded);
  }

  /**
   * `Serialize`: the list written as records under sequential ids standing in
   * for the nodes' hash codes. Decoding what is written gives back the
   * list's shape, or `NoElements` for the empty list.
   */
  method Serialize(head: ListNode?, ghost nodes: seq<ListNode>) returns (ids: map<ListNode, int>, written: seq<Token>)
    requires IsList(head, nodes)
    ensures ValidIds(nodes, ids)
    ensures written == Written(EncodeShape(ShapeOf(nodes), IdsAlong(nodes, ids)))
    ensures DecodeRecords(RecordsOf(written)) == if |nodes| == 0 then Err(NoElements) else Ok(ShapeOf(nodes))
  {
    ids := AssignIds(head, nodes);
    written := SerializeInternal(head, nodes, ids);
    WrittenRoundTrip(ShapeOf(nodes), IdsAlong(nodes, ids));
  }

  // ---------------------------------------------------------------------
  // The public entry points
  // ---------------------------------------------------------------------

  /** A stream as the decoder sees it: whether it can be read, and its tokens. */
  datatype Stream = Stream(canRead: bool, tokens: seq<Token>)

  /** `Deserialize`: an unreadable stream is refused; any other is decoded. */
  method Deserialize(s: Stream) returns (result: Result<ListNode, DecodeError>, ghost nodes: seq<ListNode>)
    ensures !s.canRead ==> result == Err(Unreadable)
    ensures s.canRead && DecodeRecords(RecordsOf(s.tokens)).Err? ==> result == Err(DecodeRecords(RecordsOf(s.tokens)).error)
    ensures s.canRead && DecodeRecords(RecordsOf(s.tokens)).Ok? ==>
              && result.Ok? && IsList(result.value, nodes) && PreviousMirrorsNext(nodes)
              && ShapeOf(nodes) == DecodeRecords(RecordsOf(s.tokens)).value
    ensures forall i :: 0 <= i < |nodes| ==> fresh(nodes[i])
  {
    if s.canRead {
      result, nodes := DeserializeInternal(s.tokens);
    } else {
      result, nodes := Err(Unreadable), [];
    }
  }
}
