# Two list serializers, modelled and proved

The repository holds two implementations of one list-serializer interface. Both
work over a `ListNode` with four fields: `Data` (a nullable string), `Next`,
`Previous` and `Random`. `Random` may point at any node of the same list: an
earlier one, a later one, the node itself, or nothing. Each serializer offers
three operations:

- **DeepCopy** clones the list. The clone repeats the `Next` chain, rebuilds
  `Previous` to mirror it, and re-points every `Random` edge at the clone of
  its target.
- **Serialize** writes one record `{OriginalHashCode, Data, RandomHashCode}`
  per node.
- **Deserialize** rebuilds an isomorphic list from those records. A random id
  may name a record that has not been read yet.

The two implementations:

- `SivoplyasovSerializer` works iteratively. Its copy is a loop driven by an
  identity dictionary. Its encoder writes a flat array of records. Its decoder
  builds the chain in one pass and queues every record whose random target is
  not registered yet. `ResolveRandomLinks` settles that queue afterwards.
- `JohnSmithSerializer` works recursively. Its copy registers each clone,
  recurses into `Next`, and sets `Random` when the recursion returns. Its
  encoder nests each record inside its predecessor's (`NextJsonBytes`). Its
  decoder registers each node, decodes the successor, then looks up `Random`.

## Layout

- `results.dfy` (`Results`): `Option` and `Result`.
- `list_graph.dfy` (`ListGraph`): the heap nodes, and what it means for a
  ghost sequence of nodes to be a list (`IsList`, `PreviousMirrorsNext`).
  - A list's *shape* is its position-by-position view: each position holds
    the payload and the position its `Random` points at (`ShapeOf`).
  - `Realizes` says that nodes are, field by field, the list a shape
    describes.
- `identity.dfy` (`Identity`): explicit node ids, which stand in for
  `GetHashCode()`.
- `flat_wire.dfy` (`FlatWire`): the flat record stream.
  - Encoding and decoding at the level of shapes.
  - The decoder's outcome, including its error cases.
  - The two passes of the iterative decoder.
  - The discrepancy listed under Findings.
- `nested_wire.dfy` (`NestedWire`): the nested payload, its flattening, and
  the outcome of the recursive decoder.
- `node_table.dfy` (`NodeTables`): the dictionary the recursive serializer
  passes by reference to every level of its recursion.
- `sivoplyasov.dfy` (`Sivoplyasov`) and `john_smith.dfy` (`JohnSmith`): the
  two serializers as imperative Dafny. Nodes are allocated and their fields
  assigned, loops carry invariants, and the recursion carries contracts. Each
  operation is proved against the shape functions above.

## Model

| member | source | states |
|---|---|---|
| Identity.AssignIds | Sivoplyasov.CustomSerialization/SivoplyasovSerializer.cs:108-113 | Walking the `next` chain gives node k the id k+1. The ids are non-zero and distinct, and name exactly the nodes of the list. |
| ListGraph.ShapeOfRandom | Sivoplyasov.CustomSerialization/SivoplyasovSerializer.cs:73-89 | A list's shape records node i's payload. Its random position is j exactly when node i's `Random` is node j, including j == i and j > i. It is absent exactly when `Random` is null. |
| ListGraph.CorrespondingShapes | Sivoplyasov.CustomSerialization/SivoplyasovSerializer.cs:73-89 | A position-by-position copy of a list, with each `Random` re-pointed at the clone of its target, has the original's shape. |
| ListGraph.RealizedList | Sivoplyasov.CustomSerialization/SivoplyasovSerializer.cs:168-174 | Nodes that realize a shape form a list with that shape: `Next` ends in null and `Previous` mirrors `Next`. |
| Sivoplyasov.MakeCopy | Sivoplyasov.CustomSerialization/SivoplyasovSerializer.cs:46-99 | The copy of a list, or of a null head, is a list and `Previous` mirrors `Next`. It is fresh: no clone is an original. It has the original's length, payloads and random positions, including self-loops and forward targets. The identity map sends each original to its clone and holds only originals. |
| Sivoplyasov.CopyChain | Sivoplyasov.CustomSerialization/SivoplyasovSerializer.cs:53-96 | The loop clones each original at most once, looking in the identity map before every allocation. It leaves every clone linked: `Previous` to the preceding clone (null at the head), `Next` to the following one, `Random` to the clone of the target. The copied head is the clone of the first original, or null for an empty list. |
| Sivoplyasov.GetOrClone | Sivoplyasov.CustomSerialization/SivoplyasovSerializer.cs:56-66 | An original that already has a clone gets that clone back. Otherwise a fresh clone with its payload is registered. The map gains that one entry at most: existing entries stay unchanged and no other key is added. |
| Sivoplyasov.CopyNode | Sivoplyasov.CustomSerialization/SivoplyasovSerializer.cs:55-94 | One step of the copy loop links the current clone's `Previous`, its predecessor's `Next` and its own `Random`. All other clones keep their fields. The identity map gains at most two keys, the current original and its random target, and keeps every existing entry. |
| Sivoplyasov.LinkPrevious | Sivoplyasov.CustomSerialization/SivoplyasovSerializer.cs:68 | The current clone's `Previous` becomes the preceding clone, or null at the head. |
| Sivoplyasov.LinkNext | Sivoplyasov.CustomSerialization/SivoplyasovSerializer.cs:70-71 | The preceding clone's `Next` becomes the current clone. |
| Sivoplyasov.CopyRandom | Sivoplyasov.CustomSerialization/SivoplyasovSerializer.cs:73-89 | The current clone's `Random` becomes the clone of its original's target. That clone is taken from the identity map when there is one, and made fresh and registered otherwise. The map gains no key but the random target. |
| Sivoplyasov.SetRandom | Sivoplyasov.CustomSerialization/SivoplyasovSerializer.cs:88 | Pointing the current clone at the registered clone of the random target copies that random edge. |
| Sivoplyasov.Finished | Sivoplyasov.CustomSerialization/SivoplyasovSerializer.cs:91-98 | When the loop ends, the clones taken in `next` order form a list with the original's shape, node by node under the identity map. |
| Sivoplyasov.SerializeInternal | Sivoplyasov.CustomSerialization/SivoplyasovSerializer.cs:101-123 | Inside the array delimiters, exactly one record is written per node, in `Next` order. Each record holds the node's id and payload. It holds the `Random` target's id when `Random` is set, and no random id otherwise. |
| Sivoplyasov.Serialize | Sivoplyasov.CustomSerialization/SivoplyasovSerializer.cs:39-42 | With ids standing in for hash codes, the written stream decodes to the list's shape. An empty list decodes to the no-elements error. |
| FlatWire.RecordsOfWritten | Sivoplyasov.CustomSerialization/SivoplyasovSerializer.cs:106-122 | A decoder that reads node objects and skips other tokens gets back exactly the records that were written. |
| FlatWire.DecodeEncode | Sivoplyasov.CustomSerialization/SivoplyasovSerializer.cs:108-113 | Round trip: a non-empty list encoded under distinct non-zero ids decodes back to its shape. |
| FlatWire.EncodeDecode | Sivoplyasov.CustomSerialization/SivoplyasovSerializer.cs:144-182 | Round trip the other way: a stream with distinct ids that decodes re-encodes to the same stream. |
| FlatWire.WrittenRoundTrip | Sivoplyasov.CustomSerialization/SivoplyasovSerializer.cs:101-185 | A written list of any length, empty included, decodes to its shape. The empty list decodes to `NoElements`. |
| FlatWire.DecodedPosition | Sivoplyasov.CustomSerialization/SivoplyasovSerializer.cs:147-172 | Decoded position i has record i's payload, so the records are linked in stream order. It has a random edge exactly when record i names a random id, pointing at a record that carries that id. |
| FlatWire.ResolveEncode | Sivoplyasov.CustomSerialization/SivoplyasovSerializer.cs:158-166 | Under distinct ids, resolving the random ids of an encoded list finds every target at its original position. |
| FlatWire.DeferredFrom | Sivoplyasov.CustomSerialization/SivoplyasovSerializer.cs:162-165 | The queued positions are exactly the records whose random id is not registered when they are read, in stream order. |
| FlatWire.DeferredSnoc | Sivoplyasov.CustomSerialization/SivoplyasovSerializer.cs:158-166 | Reading one more record appends its position to the queue exactly when its random id is not yet registered. |
| FlatWire.RegistryStep | Sivoplyasov.CustomSerialization/SivoplyasovSerializer.cs:152-153 | Only the first node with a given id is registered. A later record with the same id leaves the registry unchanged. |
| FlatWire.NoneDangling | Sivoplyasov.CustomSerialization/SivoplyasovSerializer.cs:187-198 | If no queued record dangles, no record of the stream dangles: an id resolved in the first pass always names a record. |
| FlatWire.AsWrittenAgreesOnUniqueIds | Sivoplyasov.CustomSerialization/SivoplyasovSerializer.cs:187-198 | With distinct ids, the resolution pass as written gives the same outcome as the corrected one on every stream. |
| FlatWire.AsWrittenMisplacesDeferredLink | Sivoplyasov.CustomSerialization/SivoplyasovSerializer.cs:195-196 | On a stream with a repeated id, the decoder as written attaches the deferred link to the first node that carries the id. The record that named the link is left without it. |
| FlatWire.CorrectedLinksDuplicate | Sivoplyasov.CustomSerialization/SivoplyasovSerializer.cs:187-198 | On the same stream, the corrected decoder links the record that named the random id. |
| Sivoplyasov.ReadAll | Sivoplyasov.CustomSerialization/SivoplyasovSerializer.cs:137-176 | The first pass fails exactly when some record has id 0. Otherwise it leaves the nodes chained in stream order and `Previous` mirroring `Next`, the head set to the first node, each id registered to its first node, random links resolved where the target was already registered, and the rest queued in stream order. |
| Sivoplyasov.ReadToken | Sivoplyasov.CustomSerialization/SivoplyasovSerializer.cs:139-175 | A node object with id 0 stops the pass. Any other node object becomes the next fresh node. Other tokens are skipped. |
| Sivoplyasov.ReadNode | Sivoplyasov.CustomSerialization/SivoplyasovSerializer.cs:147-174 | Reading one record appends a fresh node with its payload behind the previous node. The node is registered under a new id, and its random link is either resolved or queued. |
| Sivoplyasov.AppendNode | Sivoplyasov.CustomSerialization/SivoplyasovSerializer.cs:147-174 | Appending a fresh node behind the previous one, with its payload and its first-pass random edge, extends the realized first-pass list by one position. |
| Sivoplyasov.QueuedStep | Sivoplyasov.CustomSerialization/SivoplyasovSerializer.cs:158-166 | The queue gains the new node with its random id exactly when that id is not registered yet. |
| Sivoplyasov.ResolveRandomLinks | Sivoplyasov.CustomSerialization/SivoplyasovSerializer.cs:187-198 | Settling the queue in order succeeds exactly when no record's random id dangles. On success, the nodes realize the fully resolved list. |
| Sivoplyasov.SettleQueued | Sivoplyasov.CustomSerialization/SivoplyasovSerializer.cs:191-196 | One dequeued entry is settled exactly when its random id is registered. It then points its node at the registered target. |
| Sivoplyasov.SettleLink | Sivoplyasov.CustomSerialization/SivoplyasovSerializer.cs:195-196 | Settling a deferred position resolves its random edge and changes no other position. |
| Sivoplyasov.DeserializeInternal | Sivoplyasov.CustomSerialization/SivoplyasovSerializer.cs:125-185 | The errors come in this order: an id 0 is refused when read, then a dangling random id, then an empty stream. Any other stream gives a fresh list with `Previous` mirroring `Next` and the shape the records describe. |
| Sivoplyasov.Deserialize | Sivoplyasov.CustomSerialization/SivoplyasovSerializer.cs:24-37 | An unreadable stream is refused. A readable one is decoded as `DeserializeInternal` decodes it. |
| JohnSmith.MakeCopy | Sivoplyasov.CustomSerialization/YourImplementation.cs:57-82 | Copying from position k leaves the clones of positions k and later fresh and distinct. They are registered under their originals. Their payloads are copied, `Previous` is the parent clone (null at the head) and `Next` is the next clone. Each `Random` is the clone of its target, whether earlier, later or the node itself. |
| JohnSmith.CopyNext | Sivoplyasov.CustomSerialization/YourImplementation.cs:62-63 | The recursion into `Next` leaves all later clones fresh, distinct, registered and linked, and returns the clone of the successor. |
| JohnSmith.Link | Sivoplyasov.CustomSerialization/YourImplementation.cs:63-79 | Setting `Next` and `Random` of the current clone makes the clones from the current position on realize the original's shape. |
| JohnSmith.NewClone | Sivoplyasov.CustomSerialization/YourImplementation.cs:59-60 | The clone is fresh, carries its original's payload and its parent as `Previous`, and is registered under its original before the recursion. |
| JohnSmith.CloneOfRandom | Sivoplyasov.CustomSerialization/YourImplementation.cs:68-79 | After the recursion, the clone's random target is the clone of the original's target: itself for a self-loop, the registered clone otherwise, null when there is none. |
| JohnSmith.RandomClone | Sivoplyasov.CustomSerialization/YourImplementation.cs:74-78 | Once every original is registered, the lookup of any random target succeeds and gives the clone at the target's position. |
| JohnSmith.SelfRandom | Sivoplyasov.CustomSerialization/YourImplementation.cs:70-73 | A node whose `Random` is itself has its own position as random position. |
| JohnSmith.DeepCopy | Sivoplyasov.CustomSerialization/YourImplementation.cs:18-25 | The copy of a non-empty list is a fresh list with `Previous` mirroring `Next` and the same shape, node by node under the identity map. |
| JohnSmith.CopiedList | Sivoplyasov.CustomSerialization/YourImplementation.cs:57-82 | Clones realized from position 0 with a null parent form a list with the original's shape that corresponds to it node by node. |
| JohnSmith.SerializeInternal | Sivoplyasov.CustomSerialization/YourImplementation.cs:84-98 | The payload of node k is the nesting of the records of nodes k and later. The record at depth d holds node k+d's id, payload and random id. The innermost record has no successor. |
| JohnSmith.Serialize | Sivoplyasov.CustomSerialization/YourImplementation.cs:49-53 | With ids standing in for hash codes, the nested payload decodes to the list's shape. |
| NestedWire.UnnestNest | Sivoplyasov.CustomSerialization/YourImplementation.cs:91-94 | Flattening the nesting of a non-empty stream gives the stream back, ending in a record without successor. The nesting depth is the stream's length. |
| NestedWire.NestUnnest | Sivoplyasov.CustomSerialization/YourImplementation.cs:119-124 | A payload whose innermost record has no successor is the nesting of its flattened records. |
| NestedWire.ErrorAtOutcome | Sivoplyasov.CustomSerialization/YourImplementation.cs:105-127 | The failure the recursion reports from depth k on is, in order: a repeated id, then a payload that does not parse, then a dangling random id. |
| NestedWire.DecodeNestedOutcome | Sivoplyasov.CustomSerialization/YourImplementation.cs:100-131 | Decoding a nested payload fails with duplicate ids, then with a malformed payload, then with a dangling id. Otherwise it gives the records resolved by position, plus a blank node for a `null` payload. |
| NestedWire.DuplicateFromStart | Sivoplyasov.CustomSerialization/YourImplementation.cs:117 | Some record repeats an earlier id exactly when the stream's ids are not distinct. |
| NestedWire.NestedRoundTrip | Sivoplyasov.CustomSerialization/YourImplementation.cs:84-131 | The nesting of a non-empty list's encoding under distinct ids decodes back to the list. Forward, backward and self references all come back by position. |
| NestedWire.SingleNodeRoundTrip | Sivoplyasov.CustomSerialization.Tests/SerializationDeserializationTests.cs:249-270 | A single node comes back with its payload and no random edge. |
| NestedWire.NestedAgreesWithFlat | Sivoplyasov.CustomSerialization/YourImplementation.cs:100-131 | On a non-empty stream with distinct non-zero ids, the recursive decoder gives the same outcome as the iterative one. |
| NodeTables.NodeTable.Add | Sivoplyasov.CustomSerialization/YourImplementation.cs:117 | Inserting a key succeeds exactly when the key is absent. On failure the entries are unchanged. |
| JohnSmith.DeserializeInternal | Sivoplyasov.CustomSerialization/YourImplementation.cs:100-131 | A payload that does not parse is refused. `null` gives a blank node. A node object is decoded by `DeserializeObject`. On success the nodes from depth k on are fresh and distinct, registered by id, and linked as the resolved records say. |
| JohnSmith.DeserializeObject | Sivoplyasov.CustomSerialization/YourImplementation.cs:114-128 | The node is registered before its successor is decoded, and a repeated id is refused. It is then linked to the decoded successor. Its random link is looked up after the whole suffix is registered, and an id no record carries is refused. |
| JohnSmith.Register | Sivoplyasov.CustomSerialization/YourImplementation.cs:116-117 | Registration sets the payload and fails exactly when an earlier record has the same id. |
| JohnSmith.DecodeNext | Sivoplyasov.CustomSerialization/YourImplementation.cs:119-124 | The successor payload is decoded with the current node registered. On success, `Next` and `Previous` are mirrored between the two nodes. |
| JohnSmith.LinkNext | Sivoplyasov.CustomSerialization/YourImplementation.cs:122-123 | `Next` of the current node and `Previous` of its successor point at each other. No other node changes. |
| JohnSmith.LinkRandom | Sivoplyasov.CustomSerialization/YourImplementation.cs:127 | The current node's `Random` is set to the looked-up node. No other node changes. |
| JohnSmith.DecodeRandom | Sivoplyasov.CustomSerialization/YourImplementation.cs:126-127 | The lookup succeeds exactly when the random id names a record. It then points `Random` at that record's node, forward, backward or at itself. |
| JohnSmith.Deserialize | Sivoplyasov.CustomSerialization/YourImplementation.cs:27-47 | An unreadable stream is refused. Otherwise the result is exactly the outcome `DecodeNested` gives: the error, or a fresh list with `Previous` mirroring `Next` and the decoded shape. |
| JohnSmith.DecodedList | Sivoplyasov.CustomSerialization/YourImplementation.cs:119-127 | The nodes decoded from depth 0 form a list whose shape is the decoded payload. |

## Left out

- JSON text is not modelled. Newtonsoft's `JsonTextWriter`/`JObject.Load` and `System.Text.Json` are third-party code.
  - The flat stream is a sequence of tokens: node objects and other tokens.
  - A nested payload is a datatype that is malformed, `null`, or a node object.
- The trailing comma written at SivoplyasovSerializer.cs:117 is not modelled. It is a detail of the JSON text.
- Stream plumbing is not modelled: `Seek`, `ReadAsync`, `WriteAsync` and the readers and writers with `leaveOpen`. `CanRead` is kept as a flag of the abstract stream, and an unreadable stream yields an `Unreadable` error.
- `async`/`Task` is not modelled. The methods are synchronous since nothing in them waits on anything of consequence.
- `GetHashCode()` is replaced by explicit ids. Hash codes are neither unique nor stable.
  - Encoders get sequential non-zero ids from `Identity.AssignIds`.
  - Identity dictionaries in the copies key clones by the original node object.
- The second `copedNodes.Add(result.GetHashCode(), result)` at YourImplementation.cs:65-66 is not modelled. It keys a clone by its own hash code, nothing reads that entry, and it can only throw on a hash collision.
- The unused `previousNode` and `Stream` parameters of the recursive `SerializeInternal` are not modelled.
- JohnSmith.DeepCopy and JohnSmith.Serialize require a non-null head. The source dereferences the head without a check, so a null head crashes, and that crash is not modelled.
- Exceptions are modelled as error results.
  - A random id that names no record, a `KeyNotFoundException` in the source, is `DanglingReference`.
  - `Dictionary.Add` on a repeated id, an `ArgumentException` in the source, is `DuplicateId`.
  - In the recursive decoder, a payload the JSON library cannot parse is `InvalidFormat` (YourImplementation.cs:105-112).
- Sivoplyasov.DeserializeInternal does not model a token that fails to parse. The flat stream holds only well-formed node objects and other tokens, so the `JsonReaderException` of `JObject.Load` and a failing `ToObject` conversion at SivoplyasovSerializer.cs:141-142 have no counterpart. In the source both propagate as exceptions.
- Sivoplyasov.ResolveRandomLinks models the corrected lookup: it queues each node together with the random id it names. The lookup as written is modelled as `FlatWire.DecodeRecordsAsWritten` (see Findings).
- Sivoplyasov.SettleQueued links the node queued with the record, not `deserializedNodes[originalHash]` as SivoplyasovSerializer.cs:195 does. The two differ only when a repeated id maps the record's own id to an earlier node.
- Sivoplyasov.DeserializeInternal ensures the corrected `DecodeRecords` outcome. On a stream with a repeated id this is not what SivoplyasovSerializer.cs:179-196 compute (see Findings). With distinct ids the two agree, by `FlatWire.AsWrittenAgreesOnUniqueIds`.
- Sivoplyasov.Deserialize inherits that corrected outcome from `DeserializeInternal`, with the same gap on repeated ids.
- The iterative decoder still registers only the first node with a repeated id, as the source does.
- CustomSerializationTest/Program.cs is not part of this model. It is a console demo with no logic of its own.
- The test projects are not part of this model. They only serve as evidence for the properties above.

## Findings

| source | as written | input that shows it | evidently intended | confidence | as-written member | corrected member |
|---|---|---|---|---|---|---|
| Sivoplyasov.CustomSerialization/SivoplyasovSerializer.cs:195-196 | A deferred random link is attached to the node registered under the dequeued record's own id, which is the FIRST node carrying that id. | Records `(5, "a", none)`, `(5, "b", random 7)`, `(7, "c", none)`, i.e. `FlatWire.DuplicateIdStream`: node "a" gets the random link and node "b", which named it, gets none. | The link belongs to the node decoded from the dequeued record. The corrected model queues that node with its random id. | not executed | FlatWire.AsWrittenMisplacesDeferredLink | FlatWire.CorrectedLinksDuplicate |
