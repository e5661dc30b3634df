/**
 * The recursive serializer: a copy that clones a node, recurses into its
 * successor and sets its random link on the way back; an encoder that nests
 * each node's record inside its predecessor's; and a decoder that registers
 * each node before decoding its successor and resolves its random link after.
 * The id dictionary is shared by every level of the recursion.
 */
module JohnSmith {
  import opened Results
  import opened ListGraph
  import opened Identity
  import opened FlatWire
  import opened NestedWire
  import opened NodeTables

  // ---------------------------------------------------------------------
  // Deep copy
  // ---------------------------------------------------------------------

  /** The list being copied, `shape` being its shape. */
  ghost predicate Original(nodes: seq<ListNode>, shape: Shape)
    reads nodes
  {
    |nodes| > 0 && IsList(nodes[0], nodes) && shape == ShapeOf(nodes)
  }

  /** The dictionary holds exactly the first `|clones|` originals, each mapped to its clone. */
  ghost predicate Registered(entries: map<ListNode, ListNode>, nodes: seq<ListNode>, clones: seq<ListNode>) {
    && |clones| <= |nodes|
    && (forall n :: n in entries ==> n in nodes[..|clones|])
    && (forall j :: 0 <= j < |clones| ==> nodes[j] in entries && entries[nodes[j]] == clones[j])
  }

  /**
   * The clone of the current original: its payload, the parent clone as
   * `previous`, registered under the original before anything else happens.
   */
  method NewClone(prvious: ListNode?, nodeToCopy: ListNode, copedNodes: NodeTable<ListNode>,
                  ghost nodes: seq<ListNode>, ghost shape: Shape, ghost clones: seq<ListNode>)
    returns (result: ListNode)
    requires |clones| < |nodes| && Original(nodes, shape) && nodeToCopy == nodes[|clones|]
    requires Registered(copedNodes.entries, nodes, clones)
    modifies copedNodes
    ensures fresh(result)
    ensures result.data == nodeToCopy.data && result.previous == prvious && result.next == null && result.random == null
    ensures Registered(copedNodes.entries, nodes, clones + [result])
  {
    result := new ListNode(nodeToCopy.data);
    result.previous := prvious;
    ghost var k := |clones|;
    assert nodes[..k + 1] == nodes[..k] + [nodeToCopy];
    assert nodeToCopy !in nodes[..k];
    var added := copedNodes.Add(nodeToCopy, result);
    assert added;
  }

  /** Once every original is registered, the clone of a random target is the clone at its position. */
  lemma RandomClone(entries: map<ListNode, ListNode>, nodes: seq<ListNode>, full: seq<ListNode>, k: nat)
    requires k < |nodes| && IsList(nodes[0], nodes) && Registered(entries, nodes, full) && |full| == |nodes|
    requires nodes[k].random != null
    ensures nodes[k].random in entries
    ensures ShapeOf(nodes)[k].random.Some? && entries[nodes[k].random] == full[ShapeOf(nodes)[k].random.value]
  {
    var j := IndexOf(nodes, nodes[k].random);
    assert nodes[..|full|] == nodes;
  }

  /** A self-loop is at the node's own position. */
  lemma SelfRandom(nodes: seq<ListNode>, k: nat)
    requires k < |nodes| && IsList(nodes[0], nodes) && nodes[k].random == nodes[k]
    ensures ShapeOf(nodes)[k].random == Some(k)
  {
    IndexOfDistinct(nodes, k);
  }

  /**
   * The originals from position `|clones|` on are copied as `copies`:
   * distinct clones, registered under their originals and linked as the
   * shape says, the first one with `prvious` as its `previous`.
   */
  ghost predicate Copied(entries: map<ListNode, ListNode>, nodes: seq<ListNode>, shape: Shape,
                         clones: seq<ListNode>, copies: seq<ListNode>, prvious: ListNode?)
    reads clones, copies
  {
    && |copies| == |nodes| - |clones| > 0 && Distinct(copies)
    && Registered(entries, nodes, clones + copies)
    && RealizesFrom(clones + copies, shape, |clones|, prvious)
  }

  /**
   * What the recursion into the successor of position `|clones|` leaves:
   * nothing for the last original, otherwise its copies `rest` with `result`
   * as parent and `next` their head.
   */
  ghost predicate CopiedRest(entries: map<ListNode, ListNode>, nodes: seq<ListNode>, shape: Shape,
                             clones: seq<ListNode>, result: ListNode, rest: seq<ListNode>, next: ListNode?)
    reads clones, result, rest
  {
    if |rest| == 0 then |clones| + 1 == |nodes| && Registered(entries, nodes, clones + [result]) && next == null
    else Copied(entries, nodes, shape, clones + [result], rest, result) && next == rest[0]
  }

  /**
   * Finishing the clone `result` at position `|clones|` once the rest of the
   * list is copied: its `next` and `random` are set.
   */
  method Link(result: ListNode, next: ListNode?, random: ListNode?, ghost entries: map<ListNode, ListNode>,
              ghost nodes: seq<ListNode>, ghost shape: Shape, ghost clones: seq<ListNode>, ghost rest: seq<ListNode>,
              ghost prvious: ListNode?)
    requires |clones| < |nodes| == |shape| && WellFormed(shape)
    requires CopiedRest(entries, nodes, shape, clones, result, rest, next)
    requires result !in rest
    requires result.data == shape[|clones|].data && result.previous == prvious
    requires random == (if shape[|clones|].random.None? then null else (clones + ([result] + rest))[shape[|clones|].random.value])
    modifies result`next, result`random
    ensures Copied(entries, nodes, shape, clones, [result] + rest, prvious)
  {
    result.next := next;
    result.random := random;
    ghost var k := |clones|;
    ghost var copies := [result] + rest;
    ghost var full := clones + copies;
    Prepended(result, rest);
    Reassociate(clones, [result], rest);
    forall j | k <= j < |full|
      ensures full[j].data == shape[j].data
      ensures full[j].next == NextAt(full, j)
      ensures full[j].previous == (if j == k then prvious else full[j - 1])
      ensures full[j].random == (if shape[j].random.None? then null else full[shape[j].random.value])
    {
      if j != k {
        assert full[j] == rest[j - k - 1] != result;
      }
    }
  }

  /**
   * Copies the originals `nodes[|clones|..]`, the ones before already cloned
   * as `clones`: the clone of the current node takes its payload and the
   * parent clone `prvious` as `previous`, and is registered before the
   * recursion into the successor; its `random` is set after the recursion
   * returns, when every original of the list is registered.
   */
  method MakeCopy(prvious: ListNode?, nodeToCopy: ListNode, copedNodes: NodeTable<ListNode>,
                  ghost nodes: seq<ListNode>, ghost shape: Shape, ghost clones: seq<ListNode>)
    returns (result: ListNode, ghost copies: seq<ListNode>)
    requires |clones| < |nodes| && Original(nodes, shape) && nodeToCopy == nodes[|clones|]
    requires Registered(copedNodes.entries, nodes, clones)
    requires prvious == (if |clones| == 0 then null else clones[|clones| - 1])
    modifies copedNodes
    decreases |nodes| - |clones|, 1
    ensures Copied(copedNodes.entries, nodes, shape, clones, copies, prvious)
    ensures result == copies[0] && forall c :: c in copies ==> fresh(c)
  {
    result := NewClone(prvious, nodeToCopy, copedNodes, nodes, shape, clones);
    var next, rest := CopyNext(result, nodeToCopy, copedNodes, nodes, shape, clones);
    var random := CloneOfRandom(result, nodeToCopy, copedNodes, nodes, shape, clones, rest);
    Link(result, next, random, copedNodes.entries, nodes, shape, clones, rest, prvious);
    copies := [result] + rest;
  }

  /** `if (nodeToCopy.Next != null) result.Next = await MakeCopy(result, nodeToCopy.Next, copedNodes)`. */
  method CopyNext(result: ListNode, nodeToCopy: ListNode, copedNodes: NodeTable<ListNode>,
                  ghost nodes: seq<ListNode>, ghost shape: Shape, ghost clones: seq<ListNode>)
    returns (next: ListNode?, ghost rest: seq<ListNode>)
    requires |clones| < |nodes| && Original(nodes, shape) && nodeToCopy == nodes[|clones|]
    requires Registered(copedNodes.entries, nodes, clones + [result])
    modifies copedNodes
    decreases |nodes| - |clones|, 0
    ensures CopiedRest(copedNodes.entries, nodes, shape, clones, result, rest, next)
    ensures forall c :: c in rest ==> fresh(c)
  {
    next, rest := null, [];
    if nodeToCopy.next != null {
      next, rest := MakeCopy(result, nodeToCopy.next, copedNodes, nodes, shape, clones + [result]);
    }
  }

  /**
   * The clone that `result.Random` is set to: none for a null `random`, the
   * clone itself for a self-loop, the registered clone of the target otherwise.
   */
  method CloneOfRandom(result: ListNode, nodeToCopy: ListNode, copedNodes: NodeTable<ListNode>,
                       ghost nodes: seq<ListNode>, ghost shape: Shape, ghost clones: seq<ListNode>, ghost rest: seq<ListNode>)
    returns (random: ListNode?)
    requires |clones| < |nodes| && Original(nodes, shape) && nodeToCopy == nodes[|clones|]
    requires CopiedRest(copedNodes.entries, nodes, shape, clones, result, rest, if |rest| == 0 then null else rest[0])
    ensures random == (if shape[|clones|].random.None? then null else (clones + ([result] + rest))[shape[|clones|].random.value])
  {
    random := null;
    ghost var k := |clones|;
    Reassociate(clones, [result], rest);
    if nodeToCopy.random != null {
      if nodeToCopy.random == nodeToCopy {
        SelfRandom(nodes, k);
        random := result;
      } else {
        RandomClone(copedNodes.entries, nodes, clones + ([result] + rest), k);
        random := copedNodes.entries[nodeToCopy.random];
      }
    }
  }

  /** Putting a node in front of distinct nodes it is not among. */
  lemma Prepended(result: ListNode, rest: seq<ListNode>)
    requires Distinct(rest) && result !in rest
    ensures Distinct([result] + rest)
  {
    var copies := [result] + rest;
    forall i, j | 0 <= i < j < |copies|
      ensures copies[i] != copies[j]
    {
      assert copies[j] == rest[j - 1];
      if i > 0 {
        assert copies[i] == rest[i - 1];
      }
    }
  }

  /** The copy seen through the dictionary: each clone copies its original, random edges re-pointed. */
  lemma CopyCorresponds(nodes: seq<ListNode>, clones: seq<ListNode>, cloneOf: map<ListNode, ListNode>)
    requires IsList(if |nodes| == 0 then null else nodes[0], nodes)
    requires Registered(cloneOf, nodes, clones) && |clones| == |nodes| && Realizes(clones, ShapeOf(nodes))
    ensures Corresponds(nodes, clones, cloneOf)
  {
    forall i | 0 <= i < |nodes| && nodes[i].random != null
      ensures nodes[i].random in cloneOf && clones[i].random == cloneOf[nodes[i].random]
    {
      var j := IndexOf(nodes, nodes[i].random);
      assert ShapeOf(nodes)[i].random == Some(j);
    }
  }

  /**
   * `DeepCopy`: a fresh list with the same payloads, its `previous` edges
   * mirroring `next`, and every `random` edge at the clone of its target.
   * The source dereferences the head, so the list is not empty.
   */
  method DeepCopy(head: ListNode, ghost nodes: seq<ListNode>)
    returns (result: ListNode, ghost clones: seq<ListNode>, ghost cloneOf: map<ListNode, ListNode>)
    requires IsList(head, nodes)
    ensures IsList(result, clones) && PreviousMirrorsNext(clones)
    ensures ShapeOf(clones) == ShapeOf(nodes) && Corresponds(nodes, clones, cloneOf)
    ensures forall c :: c in clones ==> fresh(c)
  {
    var copedNodes := new NodeTable<ListNode>();
    assert nodes[..0] == [];
    result, clones := MakeCopy(null, head, copedNodes, nodes, ShapeOf(nodes), []);
    cloneOf := copedNodes.entries;
    CopiedList(nodes, clones, cloneOf);
  }

  /** A copy of the whole list, started without a parent, is a list of the same shape. */
  lemma CopiedList(nodes: seq<ListNode>, clones: seq<ListNode>, cloneOf: map<ListNode, ListNode>)
    requires |nodes| > 0 && IsList(nodes[0], nodes) && Copied(cloneOf, nodes, ShapeOf(nodes), [], clones, null)
    ensures IsList(clones[0], clones) && PreviousMirrorsNext(clones)
    ensures ShapeOf(clones) == ShapeOf(nodes) && Corresponds(nodes, clones, cloneOf)
  {
    assert [] + clones == clones;
    RealizesFromStart(clones, ShapeOf(nodes));
    RealizedList(clones, ShapeOf(nodes));
    CopyCorresponds(nodes, clones, cloneOf);
  }

  // ---------------------------------------------------------------------
  // Encoding
  // ---------------------------------------------------------------------

  /** The record of node `k` in the flat encoding of the list, read off the node. */
  lemma EncodedAt(nodes: seq<ListNode>, ids: map<ListNode, int>, k: nat)
    requires k < |nodes| && IsList(nodes[0], nodes) && forall i :: 0 <= i < |nodes| ==> nodes[i] in ids
    ensures nodes[k].random != null ==> nodes[k].random in ids
    ensures var recs := EncodeShape(ShapeOf(nodes), IdsAlong(nodes, ids));
            && recs[k..][0] == Record(ids[nodes[k]], nodes[k].data, if nodes[k].random == null then None else Some(ids[nodes[k].random]))
            && recs[k..][1..] == recs[k + 1..]
  {
    if nodes[k].random != null {
      ShapeOfRandom(nodes[0], nodes, k, IndexOf(nodes, nodes[k].random));
    } else {
      ShapeOfRandom(nodes[0], nodes, k, k);
    }
  }

  /**
   * The encoder: the record of `node`, with the encoding of its successor
   * nested inside it; it is the nesting of the flat encoding from position `k` on.
   */
  function SerializeInternal(node: ListNode, ghost nodes: seq<ListNode>, ghost k: nat, ids: map<ListNode, int>): (bytes: Json)
    reads nodes
    requires k < |nodes| && IsList(nodes[0], nodes) && node == nodes[k]
    requires forall i :: 0 <= i < |nodes| ==> nodes[i] in ids
    ensures bytes == Nest(EncodeShape(ShapeOf(nodes), IdsAlong(nodes, ids))[k..])
    decreases |nodes| - k
  {
    EncodedAt(nodes, ids, k);
    var randomHashCode := if node.random != null then Some(ids[node.random]) else None;
    var nextJsonBytes := if node.next != null then Some(SerializeInternal(node.next, nodes, k + 1, ids)) else None;
    Object(SerializableNode(ids[node], node.data, nextJsonBytes, randomHashCode))
  }

  /**
   * `Serialize`: the nested encoding of the list under sequential ids standing
   * in for the hash codes; decoding it gives back the list's shape.
   */
  method Serialize(head: ListNode, ghost nodes: seq<ListNode>) returns (ids: map<ListNode, int>, bytes: Json)
    requires IsList(head, nodes)
    ensures ValidIds(nodes, ids)
    ensures bytes == Nest(EncodeShape(ShapeOf(nodes), IdsAlong(nodes, ids)))
    ensures DecodeNested(bytes) == Ok(ShapeOf(nodes))
  {
    ids := AssignIds(head, nodes);
    bytes := SerializeInternal(head, nodes, 0, ids);
    assert EncodeShape(ShapeOf(nodes), IdsAlong(nodes, ids))[0..] == EncodeShape(ShapeOf(nodes), IdsAlong(nodes, ids));
    NestedRoundTrip(ShapeOf(nodes), IdsAlong(nodes, ids));
  }

  // ---------------------------------------------------------------------
  // Decoding
  // ---------------------------------------------------------------------

  /**
   * The payload at depth `k` of the records `all` (ending as `end`) is
   * decoded as `rest`, the nodes of the shallower records being `pre`:
   * distinct new nodes, registered by id, linked as the decoded list says
   * from position `k` on, with no parent yet.
   */
  ghost predicate DecodedFrom(entries: map<int, ListNode>, all: seq<Record>, end: End, k: nat,
                              pre: seq<ListNode>, rest: seq<ListNode>)
    reads pre, rest
  {
    && k <= |all| && |pre| == k
    && |rest| == |all| - k + (if end == BlankEnd then 1 else 0) > 0 && Distinct(rest)
    && Registry(all, pre + rest[..|all| - k], entries)
    && RealizesFrom(pre + rest, Decoded(Flat(all, end)), k, null)
  }

  /** `result.Next = next; next.Previous = result;` */
  method LinkNext(current: ListNode, next: ListNode, ghost pre: seq<ListNode>, ghost tail: seq<ListNode>,
                  ghost cells: Shape)
    requires |tail| > 0 && tail[0] == next && Distinct(tail) && current !in tail
    requires RealizesFrom(pre + ([current] + tail), cells, |pre| + 1, null)
    modifies current`next, next`previous
    ensures current.next == NextAt(pre + ([current] + tail), |pre|)
    ensures RealizesFrom(pre + ([current] + tail), cells, |pre| + 1, current)
  {
    current.next := next;
    next.previous := current;
    ghost var full := pre + ([current] + tail);
    ghost var k := |pre|;
    forall j | k + 1 <= j < |full|
      ensures full[j].data == cells[j].data
      ensures full[j].next == NextAt(full, j)
      ensures full[j].previous == (if j == k + 1 then current else full[j - 1])
      ensures full[j].random == (if cells[j].random.None? then null else full[cells[j].random.value])
    {
      assert full[j] == tail[j - k - 1] != current;
      if j != k + 1 {
        assert full[j] != next;
      }
    }
  }

  /** `result.Random = serializedNodes[nextNode.RandomHashCode.Value]`. */
  method LinkRandom(current: ListNode, target: ListNode, ghost full: seq<ListNode>, ghost cells: Shape, ghost k: nat)
    requires k < |full| && full[k] == current && RealizesFrom(full, cells, k + 1, current)
    requires forall j :: k < j < |full| ==> full[j] != current
    modifies current`random
    ensures current.random == target && RealizesFrom(full, cells, k + 1, current)
  {
    current.random := target;
    forall j | k + 1 <= j < |full|
      ensures full[j].data == cells[j].data
      ensures full[j].next == NextAt(full, j)
      ensures full[j].previous == (if j == k + 1 then current else full[j - 1])
      ensures full[j].random == (if cells[j].random.None? then null else full[cells[j].random.value])
    {
      assert full[j] != current;
    }
  }

  /** Regrouping the nodes decoded at depth `k + 1` behind the node of depth `k`. */
  lemma Rejoined(pre: seq<ListNode>, current: ListNode, tail: seq<ListNode>, n: nat)
    requires 0 < n <= |tail| + 1
    ensures (pre + [current]) + tail == pre + ([current] + tail)
    ensures (pre + [current]) + tail[..n - 1] == pre + ([current] + tail)[..n]
  {
    assert ([current] + tail)[..n] == [current] + tail[..n - 1];
  }

  /**
   * Decodes the payload at depth `k`: a payload that does not parse is
   * refused; `null` gives a blank node; a node object is decoded by
   * `DeserializeObject`.
   */
  method DeserializeInternal(bytes: Json, serializedNodes: NodeTable<int>, ghost all: seq<Record>, ghost end: End,
                             ghost k: nat, ghost pre: seq<ListNode>)
    returns (result: Result<ListNode, DecodeError>, ghost rest: seq<ListNode>)
    requires k <= |all| && Unnest(bytes) == Flat(all[k..], end) && |pre| == k
    requires Registry(all[..k], pre, serializedNodes.entries)
    modifies serializedNodes
    decreases bytes, 2
    ensures ErrorAt(all, end, k).Some? ==> result == Err(ErrorAt(all, end, k).value)
    ensures ErrorAt(all, end, k).None? ==>
              result.Ok? && DecodedFrom(serializedNodes.entries, all, end, k, pre, rest) && result.value == rest[0]
    ensures forall c :: c in rest ==> fresh(c)
  {
    var current := new ListNode(None);
    match bytes
    case Malformed =>
      result, rest := Err(InvalidFormat), [];
    case Null =>
      result, rest := Ok(current), [current];
      assert all[..k] == all;
    case Object(node) =>
      result, rest := DeserializeObject(current, node, serializedNodes, bytes, all, end, k, pre);
  }

  /**
   * Decodes the node object at depth `k` into the new node `current`: it is
   * registered under its id before its successor is decoded (a repeated id
   * is refused), linked to the decoded successor, and its random link is
   * looked up once the whole payload is registered (an id no record carries
   * is refused).
   */
  method DeserializeObject(current: ListNode, node: SerializableNode, serializedNodes: NodeTable<int>, ghost bytes: Json,
                           ghost all: seq<Record>, ghost end: End, ghost k: nat, ghost pre: seq<ListNode>)
    returns (result: Result<ListNode, DecodeError>, ghost rest: seq<ListNode>)
    requires bytes == Object(node) && k <= |all| && Unnest(bytes) == Flat(all[k..], end) && |pre| == k
    requires Registry(all[..k], pre, serializedNodes.entries)
    requires current.next == null && current.previous == null && current.random == null
    requires forall i :: 0 <= i < |pre| ==> pre[i] != current
    modifies serializedNodes, current
    decreases bytes, 1
    ensures ErrorAt(all, end, k).Some? ==> result == Err(ErrorAt(all, end, k).value)
    ensures ErrorAt(all, end, k).None? ==>
              result.Ok? && DecodedFrom(serializedNodes.entries, all, end, k, pre, rest) && result.value == rest[0]
    ensures |rest| > 0 ==> rest[0] == current
    ensures forall c :: c in rest ==> c == current || fresh(c)
  {
    rest := [];
    assert all[k] == RecordOf(node) && all[k..][1..] == all[k + 1..];
    var added := Register(current, node, serializedNodes, all, k, pre);
    if !added {
      result := Err(DuplicateId);
      return;
    }
    var decoded, tail := DecodeNext(current, node, serializedNodes, bytes, all, end, k, pre);
    if decoded.Err? {
      result := Err(decoded.error);
      return;
    }
    var resolved := DecodeRandom(current, node, serializedNodes, all, end, k, pre, tail);
    if !resolved {
      result := Err(DanglingReference);
      return;
    }
    result, rest := Ok(current), [current] + tail;
  }

  /**
   * `result.Data = nextNode.Data; serializedNodes.Add(nextNode.OriginalHashCode, result)`:
   * the insertion fails exactly for an id an earlier record registered.
   */
  method Register(current: ListNode, node: SerializableNode, serializedNodes: NodeTable<int>,
                  ghost all: seq<Record>, ghost k: nat, ghost pre: seq<ListNode>)
    returns (added: bool)
    requires k < |all| && all[k] == RecordOf(node) && |pre| == k
    requires Registry(all[..k], pre, serializedNodes.entries)
    modifies serializedNodes, current`data
    ensures current.data == node.data
    ensures added <==> !DuplicateAt(all, k)
    ensures added ==> Registry(all[..k + 1], pre + [current], serializedNodes.entries)
  {
    current.data := node.data;
    ghost var before := serializedNodes.entries;
    added := serializedNodes.Add(node.originalHashCode, current);
    if added {
      RegistryStep(all[..k], pre, before, all[k], current);
      assert all[..k] + [all[k]] == all[..k + 1];
    }
  }

  /**
   * What decoding the successor of depth `k` leaves: the nodes `tail` of
   * the deeper payload, registered and linked behind `current`, whose own
   * random link is still open.
   */
  ghost predicate DecodedBehind(entries: map<int, ListNode>, all: seq<Record>, end: End, k: nat,
                                pre: seq<ListNode>, current: ListNode, tail: seq<ListNode>)
    reads pre, current, tail
  {
    && k < |all| && |pre| == k
    && |tail| == |all| - k - 1 + (if end == BlankEnd then 1 else 0) && Distinct(tail)
    && current !in tail
    && Registry(all, pre + ([current] + tail)[..|all| - k], entries)
    && RealizesFrom(pre + ([current] + tail), Decoded(Flat(all, end)), k + 1, current)
    && current.next == NextAt(pre + ([current] + tail), k)
  }

  /**
   * `if (nextNode.NextJsonBytes != null)`: decodes the successor's payload
   * with `current` registered, then links the two nodes.
   */
  method DecodeNext(current: ListNode, node: SerializableNode, serializedNodes: NodeTable<int>, ghost bytes: Json,
                    ghost all: seq<Record>, ghost end: End, ghost k: nat, ghost pre: seq<ListNode>)
    returns (decoded: Result<(), DecodeError>, ghost tail: seq<ListNode>)
    requires bytes == Object(node) && k < |all| && Unnest(bytes) == Flat(all[k..], end) && |pre| == k
    requires all[k..][1..] == all[k + 1..]
    requires Registry(all[..k + 1], pre + [current], serializedNodes.entries)
    requires current.next == null
    requires forall i :: 0 <= i < |pre| ==> pre[i] != current
    modifies serializedNodes, current`next
    decreases bytes, 0
    ensures ErrorAt(all, end, k + 1).Some? ==> decoded == Err(ErrorAt(all, end, k + 1).value)
    ensures ErrorAt(all, end, k + 1).None? ==>
              decoded.Ok? && DecodedBehind(serializedNodes.entries, all, end, k, pre, current, tail)
    ensures forall c :: c in tail ==> fresh(c)
  {
    tail := [];
    decoded := Ok(());
    if node.nextJsonBytes.Some? {
      var next;
      next, tail := DeserializeInternal(node.nextJsonBytes.value, serializedNodes, all, end, k + 1, pre + [current]);
      if next.Err? {
        decoded := Err(next.error);
        return;
      }
      assert tail[0] in tail;
      Rejoined(pre, current, tail, |all| - k);
      LinkNext(current, next.value, pre, tail, Decoded(Flat(all, end)));
    } else {
      assert all[..k + 1] == all;
      Rejoined(pre, current, tail, |all| - k);
    }
  }

  /**
   * `if (nextNode.RandomHashCode.HasValue) result.Random = serializedNodes[...]`:
   * the lookup fails exactly for a dangling random id; otherwise the payload
   * from depth `k` on is decoded.
   */
  method DecodeRandom(current: ListNode, node: SerializableNode, serializedNodes: NodeTable<int>,
                      ghost all: seq<Record>, ghost end: End, ghost k: nat, ghost pre: seq<ListNode>, ghost tail: seq<ListNode>)
    returns (resolved: bool)
    requires k < |all| && all[k] == RecordOf(node)
    requires DecodedBehind(serializedNodes.entries, all, end, k, pre, current, tail)
    requires current.data == node.data && current.previous == null && current.random == null
    requires forall i :: 0 <= i < |pre| ==> pre[i] != current
    modifies current`random
    ensures resolved <==> !Dangles(all, k)
    ensures resolved ==> DecodedFrom(serializedNodes.entries, all, end, k, pre, [current] + tail)
  {
    ghost var full := pre + ([current] + tail);
    ghost var cells := Decoded(Flat(all, end));
    if node.randomHashCode.Some? {
      if node.randomHashCode.value !in serializedNodes.entries {
        return false;
      }
      LinkRandom(current, serializedNodes.entries[node.randomHashCode.value], full, cells, k);
    }
    RealizedInFront(full, cells, k, null);
    Prepended(current, tail);
    return true;
  }

  /** A stream as the decoder sees it: whether it can be read, and what its content parses to. */
  datatype Stream = Stream(canRead: bool, content: Json)

  /**
   * `Deserialize`: an unreadable stream is refused; otherwise the content is
   * decoded with a fresh dictionary, as `DecodeNested` describes.
   */
  method Deserialize(s: Stream) returns (result: Result<ListNode, DecodeError>, ghost nodes: seq<ListNode>)
    ensures !s.canRead ==> result == Err(Unreadable)
    ensures s.canRead && DecodeNested(s.content).Err? ==> result == Err(DecodeNested(s.content).error)
    ensures s.canRead && DecodeNested(s.content).Ok? ==>
              && result.Ok? && IsList(result.value, nodes) && PreviousMirrorsNext(nodes)
              && ShapeOf(nodes) == DecodeNested(s.content).value
    ensures forall c :: c in nodes ==> fresh(c)
  {
    if !s.canRead {
      result, nodes := Err(Unreadable), [];
      return;
    }
    var serializedNodes := new NodeTable<int>();
    ghost var f := Unnest(s.content);
    assert f.recs[0..] == f.recs && f.recs[..0] == [];
    result, nodes := DeserializeInternal(s.content, serializedNodes, f.recs, f.end, 0, []);
    if result.Ok? {
      DecodedList(serializedNodes.entries, f, nodes);
    }
  }

  /** Decoded from depth 0, the nodes form a list of the decoded shape. */
  lemma DecodedList(entries: map<int, ListNode>, f: Flat, nodes: seq<ListNode>)
    requires DecodedFrom(entries, f.recs, f.end, 0, [], nodes)
    ensures IsList(nodes[0], nodes) && PreviousMirrorsNext(nodes) && ShapeOf(nodes) == Decoded(f)
  {
    assert [] + nodes == nodes;
    RealizesFromStart(nodes, Decoded(f));
    RealizedList(nodes, Decoded(f));
  }
}
