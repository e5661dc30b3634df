/**
 * The node graph both serializers work on: a singly linked `next` chain whose
 * nodes also carry a `previous` back-reference and an arbitrary `random`
 * reference into the same list, together with the positional view ("shape")
 * of such a list that copies and round trips must preserve.
 */
module ListGraph {
  import opened Results

  /** A node's payload; `None` stands for a null string. */
  type Data = Option<string>

  class ListNode {
    var data: Data
    var next: ListNode?
    var previous: ListNode?
    var random: ListNode?

    /** `new ListNode { Data = data }`: every reference starts out null. */
    constructor (data: Data)
      ensures this.data == data
      ensures next == null && previous == null && random == null
    {
      this.data := data;
      next, previous, random := null, null, null;
    }
  }

  /** Pairwise distinct elements: nodes, or the ids that name them. */
  predicate Distinct<T(==)>(s: seq<T>) {
    forall i, j :: 0 <= i < j < |s| ==> s[i] != s[j]
  }

  /** Concatenation regrouped. */
  lemma Reassociate<T>(a: seq<T>, b: seq<T>, c: seq<T>)
    ensures a + (b + c) == (a + b) + c
  {
  }

  /** The node that should follow position `i` in the chain `nodes`. */
  function NextAt(nodes: seq<ListNode>, i: nat): ListNode? {
    if i + 1 < |nodes| then nodes[i + 1] else null
  }

  /** Every `random` edge of `nodes` is null or points at a node of `nodes`. */
  ghost predicate RandomsInside(nodes: seq<ListNode>)
    reads nodes
  {
    forall i {:trigger nodes[i].random} :: 0 <= i < |nodes| ==> nodes[i].random == null || nodes[i].random in nodes
  }

  /**
   * `nodes` is the whole `next` chain starting at `head`: finite, acyclic
   * (the nodes are distinct), ending in a null `next`, and closed under `random`.
   */
  ghost predicate IsList(head: ListNode?, nodes: seq<ListNode>)
    reads nodes
  {
    && (if |nodes| == 0 then head == null else head == nodes[0])
    && Distinct(nodes)
    && (forall i {:trigger nodes[i].next} :: 0 <= i < |nodes| ==> nodes[i].next == NextAt(nodes, i))
    && RandomsInside(nodes)
  }

  /** `previous` mirrors `next`: null at the head, the preceding node elsewhere. */
  ghost predicate PreviousMirrorsNext(nodes: seq<ListNode>)
    reads nodes
  {
    forall i {:trigger nodes[i].previous} :: 0 <= i < |nodes| ==> nodes[i].previous == (if i == 0 then null else nodes[i - 1])
  }

  /** One position of a list: its payload and the position its `random` points at. */
  datatype Cell = Cell(data: Data, random: Option<nat>)

  /** A list by position, independent of object identity. */
  type Shape = seq<Cell>

  ghost predicate WellFormed(shape: Shape) {
    forall i :: 0 <= i < |shape| && shape[i].random.Some? ==> shape[i].random.value < |shape|
  }

  /** The first position of `x` in `nodes`. */
  ghost function IndexOf(nodes: seq<ListNode>, x: ListNode): (k: nat)
    requires x in nodes
    ensures k < |nodes| && nodes[k] == x
    ensures forall i :: 0 <= i < k ==> nodes[i] != x
  {
    if nodes[0] == x then 0 else 1 + IndexOf(nodes[1..], x)
  }

  /** In a list of distinct nodes, a node's position is unique. */
  lemma IndexOfDistinct(nodes: seq<ListNode>, j: nat)
    requires Distinct(nodes) && j < |nodes|
    ensures IndexOf(nodes, nodes[j]) == j
  {
  }

  ghost function RandomIndex(nodes: seq<ListNode>, i: nat): Option<nat>
    reads nodes
    requires i < |nodes| && RandomsInside(nodes)
  {
    if nodes[i].random == null then None else Some(IndexOf(nodes, nodes[i].random))
  }

  /** The positional view of a list. */
  ghost function ShapeOf(nodes: seq<ListNode>): (shape: Shape)
    reads nodes
    requires RandomsInside(nodes)
    ensures |shape| == |nodes| && WellFormed(shape)
  {
    seq(|nodes|, i requires 0 <= i < |nodes| && RandomsInside(nodes) reads nodes => Cell(nodes[i].data, RandomIndex(nodes, i)))
  }

  /**
   * What the shape of a list says about its nodes: position `i` holds node
   * `i`'s payload, and its random position is `j` exactly when node `i`'s
   * `random` is node `j` (including `i == j` and `j > i`); it is absent
   * exactly when `random` is null.
   */
  lemma ShapeOfRandom(head: ListNode?, nodes: seq<ListNode>, i: nat, j: nat)
    requires IsList(head, nodes) && i < |nodes| && j < |nodes|
    ensures ShapeOf(nodes)[i].data == nodes[i].data
    ensures ShapeOf(nodes)[i].random == Some(j) <==> nodes[i].random == nodes[j]
    ensures ShapeOf(nodes)[i].random == None <==> nodes[i].random == null
  {
    if nodes[i].random == nodes[j] {
      IndexOfDistinct(nodes, j);
    }
  }

  /**
   * `clones` copies `nodes` position by position under the identity map
   * `cloneOf`: same payloads, and each `random` edge re-pointed at the
   * clone of its target.
   */
  ghost predicate Corresponds(nodes: seq<ListNode>, clones: seq<ListNode>, cloneOf: map<ListNode, ListNode>)
    reads nodes, clones
  {
    && |clones| == |nodes|
    && (forall i :: 0 <= i < |nodes| ==> nodes[i] in cloneOf && cloneOf[nodes[i]] == clones[i])
    && (forall i :: 0 <= i < |nodes| ==> clones[i].data == nodes[i].data)
    && (forall i :: 0 <= i < |nodes| ==>
          if nodes[i].random == null then clones[i].random == null
          else nodes[i].random in cloneOf && clones[i].random == cloneOf[nodes[i].random])
  }

  /** A position-by-position copy of a list of distinct nodes has the same shape. */
  lemma {:induction false} CorrespondingShapes(head: ListNode?, nodes: seq<ListNode>, copy: ListNode?, clones: seq<ListNode>, cloneOf: map<ListNode, ListNode>)
    requires IsList(head, nodes) && Distinct(clones) && Corresponds(nodes, clones, cloneOf)
    ensures RandomsInside(clones)
    ensures ShapeOf(clones) == ShapeOf(nodes)
  {
    forall i | 0 <= i < |nodes| && nodes[i].random != null
      ensures clones[i].random == clones[IndexOf(nodes, nodes[i].random)]
    {
    }
    assert RandomsInside(clones);
    forall i | 0 <= i < |nodes|
      ensures ShapeOf(clones)[i] == ShapeOf(nodes)[i]
    {
      if nodes[i].random != null {
        IndexOfDistinct(clones, IndexOf(nodes, nodes[i].random));
      }
    }
  }

  /**
   * The distinct nodes `nodes` are, field by field, the list that `shape`
   * describes: the payloads, the `next` chain, `previous` mirroring it, and
   * each `random` at the position the shape names.
   */
  ghost predicate Realizes(nodes: seq<ListNode>, shape: Shape)
    reads nodes
  {
    && |shape| == |nodes| && WellFormed(shape) && Distinct(nodes)
    && (forall i {:trigger nodes[i].data} :: 0 <= i < |nodes| ==> nodes[i].data == shape[i].data)
    && (forall i {:trigger nodes[i].next} :: 0 <= i < |nodes| ==> nodes[i].next == NextAt(nodes, i))
    && (forall i {:trigger nodes[i].previous} :: 0 <= i < |nodes| ==> nodes[i].previous == (if i == 0 then null else nodes[i - 1]))
    && (forall i {:trigger nodes[i].random} :: 0 <= i < |nodes| ==>
          nodes[i].random == (if shape[i].random.None? then null else nodes[shape[i].random.value]))
  }

  /** Nodes that realize a shape form a list with that shape, `previous` mirroring `next`. */
  lemma RealizedList(nodes: seq<ListNode>, shape: Shape)
    requires Realizes(nodes, shape)
    ensures IsList(if |nodes| == 0 then null else nodes[0], nodes) && PreviousMirrorsNext(nodes)
    ensures ShapeOf(nodes) == shape
  {
    assert RandomsInside(nodes);
    forall i | 0 <= i < |nodes|
      ensures ShapeOf(nodes)[i] == shape[i]
    {
      if shape[i].random.Some? {
        IndexOfDistinct(nodes, shape[i].random.value);
      }
    }
  }

  /**
   * From position `k` on, `full` is the list `shape` describes: payloads,
   * the `next` chain, `previous` mirroring it (`first` at position `k`),
   * and each `random` at the node of the position the shape names, which
   * may lie before `k`.
   */
  ghost predicate RealizesFrom(full: seq<ListNode>, shape: Shape, k: nat, first: ListNode?)
    reads full
  {
    && |shape| == |full| && WellFormed(shape) && k <= |full|
    && (forall j {:trigger full[j].data} :: k <= j < |full| ==> full[j].data == shape[j].data)
    && (forall j {:trigger full[j].next} :: k <= j < |full| ==> full[j].next == NextAt(full, j))
    && (forall j {:trigger full[j].previous} :: k <= j < |full| ==> full[j].previous == (if j == k then first else full[j - 1]))
    && (forall j {:trigger full[j].random} :: k <= j < |full| ==>
          full[j].random == (if shape[j].random.None? then null else full[shape[j].random.value]))
  }

  /** Realized from the start, with a null `previous` at the head, distinct nodes realize the shape. */
  lemma RealizesFromStart(nodes: seq<ListNode>, shape: Shape)
    requires RealizesFrom(nodes, shape, 0, null) && Distinct(nodes)
    ensures Realizes(nodes, shape)
  {
  }

  /** Realizing position `k` in front of a list realized from `k + 1` on with `full[k]` as parent. */
  lemma RealizedInFront(full: seq<ListNode>, shape: Shape, k: nat, first: ListNode?)
    requires k < |full| && RealizesFrom(full, shape, k + 1, full[k])
    requires full[k].data == shape[k].data && full[k].next == NextAt(full, k) && full[k].previous == first
    requires full[k].random == (if shape[k].random.None? then null else full[shape[k].random.value])
    ensures RealizesFrom(full, shape, k, first)
  {
  }
}
