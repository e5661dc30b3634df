/**
 * The nested wire format of the recursive serializer: each node's record
 * carries the encoding of its successor (`NextJsonBytes`), so the record
 * of node k sits at depth k and the innermost record has no successor.
 */
module NestedWire {
  import opened Results
  import opened ListGraph
  import opened Identity
  import opened FlatWire

  /**
   * One serialized node: `OriginalHashCode`, `Data`, the encoding of the
   * successor (`NextJsonBytes`, absent for the last node) and `RandomHashCode`.
   */
  datatype SerializableNode = SerializableNode(originalHashCode: int, data: Data, nextJsonBytes: Option<Json>,
                                               randomHashCode: Option<int>)

  /**
   * What a payload parses to: a node object, the JSON literal `null`, or
   * text that does not parse as a node record.
   */
  datatype Json = Malformed | Null | Object(node: SerializableNode)

  /** How a nested payload ends below its last node object. */
  datatype End = Complete | BlankEnd | MalformedEnd

  /** A nested payload flattened: its node records from the outside in, and how it ends. */
  datatype Flat = Flat(recs: seq<Record>, end: End)

  function RecordOf(node: SerializableNode): Record {
    Record(node.originalHashCode, node.data, node.randomHashCode)
  }

  /** The records of a nested payload by depth. */
  function Unnest(bytes: Json): (f: Flat)
    ensures bytes.Object? <==> |f.recs| > 0
    ensures f.end == Complete ==> |f.recs| > 0
  {
    match bytes
    case Malformed => Flat([], MalformedEnd)
    case Null => Flat([], BlankEnd)
    case Object(node) =>
      var rest := if node.nextJsonBytes.None? then Flat([], Complete) else Unnest(node.nextJsonBytes.value);
      Flat([RecordOf(node)] + rest.recs, rest.end)
  }

  /** The nested payload of a non-empty record stream: record k at depth k. */
  function Nest(recs: seq<Record>): (bytes: Json)
    requires |recs| > 0
    ensures bytes.Object?
  {
    Object(SerializableNode(recs[0].id, recs[0].data, if |recs| == 1 then None else Some(Nest(recs[1..])),
                            recs[0].randomId))
  }

  /**
   * Nesting a stream and flattening it again gives the stream back, ending
   * in an innermost record without successor: the depth is the length.
   */
  lemma {:induction false} UnnestNest(recs: seq<Record>)
    requires |recs| > 0
    ensures Unnest(Nest(recs)) == Flat(recs, Complete)
    decreases |recs|
  {
    if |recs| > 1 {
      UnnestNest(recs[1..]);
      assert [recs[0]] + recs[1..] == recs;
    }
  }

  /** A payload whose innermost record has no successor is the nesting of its records. */
  lemma {:induction false} NestUnnest(bytes: Json)
    requires Unnest(bytes).end == Complete
    ensures Nest(Unnest(bytes).recs) == bytes
  {
    var node := bytes.node;
    var recs := Unnest(bytes).recs;
    assert recs[0] == RecordOf(node);
    if node.nextJsonBytes.Some? {
      NestUnnest(node.nextJsonBytes.value);
      assert recs[1..] == Unnest(node.nextJsonBytes.value).recs;
    }
  }

  /** Record `k` carries an id that an earlier record already registered. */
  predicate DuplicateAt(recs: seq<Record>, k: nat)
    requires k < |recs|
  {
    PositionOf(recs[..k], recs[k].id).Some?
  }

  /**
   * The failure, if any, of decoding the records from depth `k` on, in the
   * order the recursion meets them: a payload that does not parse or an id
   * registered twice, met on the way down, before a random id that names no
   * record, met on the way back up.
   */
  function ErrorAt(recs: seq<Record>, end: End, k: nat): Option<DecodeError>
    requires k <= |recs|
    decreases |recs| - k
  {
    if k == |recs| then (if end == MalformedEnd then Some(InvalidFormat) else None)
    else if DuplicateAt(recs, k) then Some(DuplicateId)
    else match ErrorAt(recs, end, k + 1)
      case Some(e) => Some(e)
      case None => if Dangles(recs, k) then Some(DanglingReference) else None
  }

  /** The list a flattened payload describes: a `null` payload adds a blank node at the end. */
  function Decoded(f: Flat): (shape: Shape)
    ensures |shape| == |f.recs| + (if f.end == BlankEnd then 1 else 0) && WellFormed(shape)
  {
    Resolve(f.recs) + (if f.end == BlankEnd then [Cell(None, None)] else [])
  }

  /** The outcome of decoding a nested payload. */
  function DecodeNested(bytes: Json): (r: Result<Shape, DecodeError>)
    ensures r.Ok? ==> |r.value| > 0 && WellFormed(r.value)
  {
    var f := Unnest(bytes);
    match ErrorAt(f.recs, f.end, 0)
    case Some(e) => Err(e)
    case None => Ok(Decoded(f))
  }

  predicate DuplicateFrom(recs: seq<Record>, k: nat) {
    exists j :: k <= j < |recs| && DuplicateAt(recs, j)
  }

  predicate DanglingFrom(recs: seq<Record>, k: nat) {
    exists j :: k <= j < |recs| && Dangles(recs, j)
  }

  /** Which failure the recursion reports from depth `k` on, stated without the recursion. */
  lemma {:induction false} ErrorAtOutcome(recs: seq<Record>, end: End, k: nat)
    requires k <= |recs|
    ensures ErrorAt(recs, end, k) ==
            if DuplicateFrom(recs, k) then Some(DuplicateId)
            else if end == MalformedEnd then Some(InvalidFormat)
            else if DanglingFrom(recs, k) then Some(DanglingReference)
            else None
    decreases |recs| - k
  {
    if k < |recs| {
      ErrorAtOutcome(recs, end, k + 1);
      assert DuplicateFrom(recs, k) <==> DuplicateAt(recs, k) || DuplicateFrom(recs, k + 1);
      assert DanglingFrom(recs, k) <==> Dangles(recs, k) || DanglingFrom(recs, k + 1);
    }
  }

  /** Some record repeats an earlier id exactly when the ids are not distinct. */
  lemma DuplicateFromStart(recs: seq<Record>)
    ensures DuplicateFrom(recs, 0) <==> !Distinct(IdsOf(recs))
  {
    if !Distinct(IdsOf(recs)) {
      var i, j :| 0 <= i < j < |recs| && recs[i].id == recs[j].id;
      assert recs[..j][i].id == recs[j].id;
      assert DuplicateAt(recs, j);
    }
    if DuplicateFrom(recs, 0) {
      var j :| 0 <= j < |recs| && DuplicateAt(recs, j);
      var i := PositionOf(recs[..j], recs[j].id).value;
      assert i < j && recs[..j][i] == recs[i];
      assert IdsOf(recs)[i] == IdsOf(recs)[j];
    }
  }

  /**
   * Decoding a nested payload: repeated ids fail, then a payload that does
   * not parse, then a dangling random id; otherwise the list is the records
   * resolved by position, plus a blank node for a `null` payload.
   */
  lemma DecodeNestedOutcome(bytes: Json)
    ensures var f := Unnest(bytes);
            DecodeNested(bytes) ==
            if !Distinct(IdsOf(f.recs)) then Err(DuplicateId)
            else if f.end == MalformedEnd then Err(InvalidFormat)
            else if HasDangling(f.recs) then Err(DanglingReference)
            else Ok(Decoded(f))
  {
    var f := Unnest(bytes);
    ErrorAtOutcome(f.recs, f.end, 0);
    DuplicateFromStart(f.recs);
  }

  /**
   * Round trip: nesting the encoding of a non-empty list under distinct ids
   * and decoding it gives back the list, every random edge (forward,
   * backward or to itself) at its position.
   */
  lemma NestedRoundTrip(shape: Shape, ids: seq<int>)
    requires WellFormed(shape) && |ids| == |shape| > 0 && Distinct(ids)
    ensures DecodeNested(Nest(EncodeShape(shape, ids))) == Ok(shape)
  {
    var recs := EncodeShape(shape, ids);
    UnnestNest(recs);
    DecodeNestedOutcome(Nest(recs));
    assert IdsOf(recs) == ids;
    assert !HasDangling(recs) by {
      forall i | 0 <= i < |recs| ensures !Dangles(recs, i) {
        match shape[i].random
        case None =>
        case Some(j) => assert recs[j].id == ids[j];
      }
    }
    ResolveEncode(shape, ids);
    assert Decoded(Flat(recs, Complete)) == Resolve(recs);
  }

  /** A single node comes back with its payload and without a random edge. */
  lemma SingleNodeRoundTrip(data: Data, id: int)
    ensures DecodeNested(Nest([Record(id, data, None)])) == Ok([Cell(data, None)])
  {
    NestedRoundTrip([Cell(data, None)], [id]);
  }

  /**
   * The two wire formats agree: the nesting of a non-empty stream with
   * distinct non-zero ids decodes exactly as the flat stream does.
   */
  lemma NestedAgreesWithFlat(recs: seq<Record>)
    requires |recs| > 0 && Distinct(IdsOf(recs)) && !HasZeroId(recs)
    ensures DecodeNested(Nest(recs)) == DecodeRecords(recs)
  {
    UnnestNest(recs);
    DecodeNestedOutcome(Nest(recs));
    assert Decoded(Flat(recs, Complete)) == Resolve(recs);
    if HasDangling(recs) {
      assert DecodeNested(Nest(recs)) == Err(DanglingReference);
    } else {
      assert DecodeNested(Nest(recs)) == Ok(Resolve(recs));
    }
  }
}
