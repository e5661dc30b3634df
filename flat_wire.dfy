/**
 * The flat wire format of the iterative serializer: one record per node, in
 * `next` order, each carrying the node's id, its payload and the id of its
 * `random` target. The `next` edges are implicit in the order of the records.
 */
module FlatWire {
  import opened Results
  import opened ListGraph
  import opened Identity

  /** One serialized node: `OriginalHashCode`, `Data`, `RandomHashCode`. */
  datatype Record = Record(id: int, data: Data, randomId: Option<int>)

  /** The ways decoding a stream can fail. */
  datatype DecodeError =
    | Unreadable          // the stream does not support reading
    | InvalidRecord       // a record's id is 0, the default of an absent id
    | NoElements          // the stream holds no node records
    | DanglingReference   // a random id names no record of the stream
    | InvalidFormat       // a payload does not parse as a node record
    | DuplicateId         // an id is registered twice

  /** The first position of a record with id `id`, if there is one. */
  function PositionOf(recs: seq<Record>, id: int): (p: Option<nat>)
    ensures p.Some? ==> p.value < |recs| && recs[p.value].id == id
    ensures p.Some? ==> forall k :: 0 <= k < p.value ==> recs[k].id != id
    ensures p.None? ==> forall k :: 0 <= k < |recs| ==> recs[k].id != id
  {
    if |recs| == 0 then None
    else if recs[0].id == id then Some(0)
    else match PositionOf(recs[1..], id)
      case None => None
      case Some(q) => Some(q + 1)
  }

  /** A position found in a prefix of the stream is the position in the whole stream. */
  lemma PositionOfPrefix(recs: seq<Record>, m: nat, id: int)
    requires m <= |recs|
    ensures PositionOf(recs[..m], id).Some? ==> PositionOf(recs, id) == PositionOf(recs[..m], id)
    ensures PositionOf(recs[..m], id).None? ==>
              PositionOf(recs, id).None? || PositionOf(recs, id).value >= m
  {
    var p := PositionOf(recs, id);
    var q := PositionOf(recs[..m], id);
    if q.Some? {
      assert recs[q.value].id == id;
    }
    if p.Some? && p.value < m {
      assert recs[..m][p.value].id == id;
    }
  }

  function IdsOf(recs: seq<Record>): (ids: seq<int>)
    ensures |ids| == |recs|
  {
    seq(|recs|, i requires 0 <= i < |recs| => recs[i].id)
  }

  /** The record of position `i` of `shape` whose nodes carry the ids `ids`. */
  function EncodeCell(shape: Shape, ids: seq<int>, i: nat): Record
    requires WellFormed(shape) && |ids| == |shape| && i < |shape|
  {
    Record(ids[i], shape[i].data,
           match shape[i].random
           case None => None
           case Some(j) => Some(ids[j]))
  }

  /** The record stream of a list with the given shape and node ids. */
  function EncodeShape(shape: Shape, ids: seq<int>): (recs: seq<Record>)
    requires WellFormed(shape) && |ids| == |shape|
    ensures |recs| == |shape|
  {
    seq(|shape|, i requires 0 <= i < |shape| && WellFormed(shape) && |ids| == |shape| => EncodeCell(shape, ids, i))
  }

  /** Position `i` of the decoded list: its payload, and the first record carrying its random id. */
  function ResolveCell(recs: seq<Record>, i: nat): Cell
    requires i < |recs|
  {
    Cell(recs[i].data,
         match recs[i].randomId
         case None => None
         case Some(r) => PositionOf(recs, r))
  }

  /** The list a record stream describes, position by position. */
  function Resolve(recs: seq<Record>): (shape: Shape)
    ensures |shape| == |recs| && WellFormed(shape)
  {
    seq(|recs|, i requires 0 <= i < |recs| => ResolveCell(recs, i))
  }

  /** Some record of the stream carries id 0; `ZeroIdIsNotNonZero` relates it to `NonZeroIds`. */
  predicate HasZeroId(recs: seq<Record>) {
    exists i :: 0 <= i < |recs| && recs[i].id == 0
  }

  /** A stream has a record with id 0 exactly when its ids are not all non-zero. */
  lemma ZeroIdIsNotNonZero(recs: seq<Record>)
    ensures HasZeroId(recs) <==> !NonZeroIds(IdsOf(recs))
  {
    if HasZeroId(recs) {
      var i :| 0 <= i < |recs| && recs[i].id == 0;
      assert IdsOf(recs)[i] == 0;
    }
  }

  /** Record `i` carries a random id that no record of the stream has. */
  predicate Dangles(recs: seq<Record>, i: nat)
    requires i < |recs|
  {
    recs[i].randomId.Some? && PositionOf(recs, recs[i].randomId.value).None?
  }

  predicate HasDangling(recs: seq<Record>) {
    exists i :: 0 <= i < |recs| && Dangles(recs, i)
  }

  /**
   * The outcome of decoding a record stream: a record with id 0 is refused
   * when it is read, a random id that names no record is refused when the
   * deferred links are resolved, and an empty stream is refused last.
   */
  function DecodeRecords(recs: seq<Record>): (r: Result<Shape, DecodeError>)
    ensures r.Ok? ==> |r.value| == |recs| > 0 && WellFormed(r.value)
  {
    if HasZeroId(recs) then Err(InvalidRecord)
    else if HasDangling(recs) then Err(DanglingReference)
    else if |recs| == 0 then Err(NoElements)
    else Ok(Resolve(recs))
  }

  /** Under distinct ids, resolving an encoded stream gives back the shape. */
  lemma {:induction false} ResolveEncode(shape: Shape, ids: seq<int>)
    requires WellFormed(shape) && |ids| == |shape| && Distinct(ids)
    ensures Resolve(EncodeShape(shape, ids)) == shape
  {
    var recs := EncodeShape(shape, ids);
    forall i | 0 <= i < |shape|
      ensures Resolve(recs)[i] == shape[i]
    {
      match shape[i].random
      case None =>
      case Some(j) =>
        assert recs[j].id == ids[j];
        var p := PositionOf(recs, ids[j]);
        assert p.Some?;
        assert recs[p.value].id == ids[p.value];
    }
  }

  /**
   * Round trip: encoding a non-empty list under distinct non-zero ids and
   * decoding the records gives back the same list, position by position,
   * with every random edge (backward, forward or to itself) in place.
   */
  lemma {:induction false} DecodeEncode(shape: Shape, ids: seq<int>)
    requires WellFormed(shape) && |ids| == |shape| > 0
    requires Distinct(ids) && NonZeroIds(ids)
    ensures DecodeRecords(EncodeShape(shape, ids)) == Ok(shape)
  {
    var recs := EncodeShape(shape, ids);
    assert !HasZeroId(recs) by {
      forall i | 0 <= i < |recs| ensures recs[i].id != 0 {
        assert recs[i].id == ids[i];
      }
    }
    assert !HasDangling(recs) by {
      forall i | 0 <= i < |recs| ensures !Dangles(recs, i) {
        match shape[i].random
        case None =>
        case Some(j) => assert recs[j].id == ids[j];
      }
    }
    ResolveEncode(shape, ids);
  }

  /**
   * The other direction: a stream with distinct ids that decodes is exactly
   * the encoding of the decoded list under the stream's own ids.
   */
  lemma {:induction false} EncodeDecode(recs: seq<Record>)
    requires Distinct(IdsOf(recs)) && DecodeRecords(recs).Ok?
    ensures EncodeShape(DecodeRecords(recs).value, IdsOf(recs)) == recs
  {
    var shape := DecodeRecords(recs).value;
    var back := EncodeShape(shape, IdsOf(recs));
    forall i | 0 <= i < |recs|
      ensures back[i] == recs[i]
    {
      if recs[i].randomId.Some? {
        assert !Dangles(recs, i);
      }
    }
  }

  /**
   * What decoding promises about each position: the payload is the record's,
   * and the random edge is present exactly when the record names a random
   * id, pointing at a record that carries that id.
   */
  lemma DecodedPosition(recs: seq<Record>, i: nat)
    requires DecodeRecords(recs).Ok? && i < |recs|
    ensures DecodeRecords(recs).value[i].data == recs[i].data
    ensures DecodeRecords(recs).value[i].random.Some? <==> recs[i].randomId.Some?
    ensures DecodeRecords(recs).value[i].random.Some? ==>
              recs[DecodeRecords(recs).value[i].random.value].id == recs[i].randomId.value
  {
    if recs[i].randomId.Some? {
      assert !Dangles(recs, i);
    }
  }

  // ---------------------------------------------------------------------
  // The decoder as written: the deferred links are resolved by looking the
  // node up under the record's OWN id, so when an id occurs twice the link
  // is attached to the first node with that id.

  /** Record `i`'s random id is not yet registered when record `i` is read. */
  predicate Deferred(recs: seq<Record>, i: nat)
    requires i < |recs|
  {
    recs[i].randomId.Some? && PositionOf(recs[..i + 1], recs[i].randomId.value).None?
  }

  /** The positions from `from` on whose random link is deferred, in stream order. */
  function DeferredFrom(recs: seq<Record>, from: nat): (q: seq<nat>)
    requires from <= |recs|
    ensures forall k :: k in q <==> from <= k < |recs| && Deferred(recs, k)
    ensures forall a, b :: 0 <= a < b < |q| ==> q[a] < q[b]
    ensures forall a :: 0 <= a < |q| ==> from <= q[a] < |recs|
    decreases |recs| - from
  {
    if from == |recs| then []
    else (if Deferred(recs, from) then [from] else []) + DeferredFrom(recs, from + 1)
  }

  /** Position `i` after the first pass: random edges to registered ids are resolved. */
  function FirstPassCell(recs: seq<Record>, i: nat): Cell
    requires i < |recs|
  {
    Cell(recs[i].data,
         match recs[i].randomId
         case None => None
         case Some(r) => PositionOf(recs[..i + 1], r))
  }

  function FirstPass(recs: seq<Record>): (cells: seq<Cell>)
    ensures |cells| == |recs|
  {
    seq(|recs|, i requires 0 <= i < |recs| => FirstPassCell(recs, i))
  }

  /** The resolution pass as written: each deferred link goes to the node registered under the record's own id. */
  function ResolveAsWritten(recs: seq<Record>, cells: seq<Cell>, q: seq<nat>): (r: Result<seq<Cell>, DecodeError>)
    requires |cells| == |recs|
    requires forall a :: 0 <= a < |q| ==> q[a] < |recs| && recs[q[a]].randomId.Some?
    ensures r.Ok? ==> |r.value| == |recs|
    decreases |q|
  {
    if |q| == 0 then Ok(cells)
    else
      var i := q[0];
      assert PositionOf(recs, recs[i].id).Some?;
      var own := PositionOf(recs, recs[i].id);
      var target := PositionOf(recs, recs[i].randomId.value);
      if target.None? then Err(DanglingReference)
      else ResolveAsWritten(recs, cells[own.value := Cell(cells[own.value].data, target)], q[1..])
  }

  /** The decoder of the iterative serializer as written. */
  function DecodeRecordsAsWritten(recs: seq<Record>): (r: Result<Shape, DecodeError>)
  {
    if HasZeroId(recs) then Err(InvalidRecord)
    else
      var q := DeferredFrom(recs, 0);
      assert forall a | 0 <= a < |q| :: q[a] in q && Deferred(recs, q[a]);
      match ResolveAsWritten(recs, FirstPass(recs), q)
      case Err(e) => Err(e)
      case Ok(cells) => if |recs| == 0 then Err(NoElements) else Ok(cells)
  }

  // ---------------------------------------------------------------------
  // The stream as the decoder reads it, and the two passes of the decoder.

  /** A token of the JSON stream: a whole node object, or anything else (brackets, separators). */
  datatype Token = NodeObject(record: Record) | OtherToken

  /** The node records of a token stream, in stream order. */
  function RecordsOf(tokens: seq<Token>): (recs: seq<Record>)
    ensures |recs| <= |tokens|
  {
    if |tokens| == 0 then []
    else
      var last := tokens[|tokens| - 1];
      RecordsOf(tokens[..|tokens| - 1]) + (if last.NodeObject? then [last.record] else [])
  }

  /** One more token adds its record, if it is a node object. */
  lemma RecordsOfSnoc(tokens: seq<Token>, t: nat)
    requires t < |tokens|
    ensures RecordsOf(tokens[..t + 1]) ==
              RecordsOf(tokens[..t]) + (if tokens[t].NodeObject? then [tokens[t].record] else [])
  {
    assert tokens[..t + 1][..t] == tokens[..t];
  }

  /** The records of a prefix of the stream are a prefix of its records. */
  lemma {:induction false} RecordsOfPrefix(tokens: seq<Token>, t: nat)
    requires t <= |tokens|
    ensures RecordsOf(tokens[..t]) <= RecordsOf(tokens)
    decreases |tokens|
  {
    if t < |tokens| {
      var init := tokens[..|tokens| - 1];
      RecordsOfPrefix(init, t);
      assert init[..t] == tokens[..t];
    } else {
      assert tokens[..t] == tokens;
    }
  }

  /** The tokens of the array the serializer writes: its records between the brackets. */
  function Written(recs: seq<Record>): (tokens: seq<Token>)
    ensures |tokens| == |recs| + 2
  {
    [OtherToken] + seq(|recs|, i requires 0 <= i < |recs| => NodeObject(recs[i])) + [OtherToken]
  }

  /** Reading back the written array gives exactly the records written. */
  lemma {:induction false} RecordsOfWritten(recs: seq<Record>)
    ensures RecordsOf(Written(recs)) == recs
  {
    var tokens := Written(recs);
    forall k | 0 <= k <= |recs|
      ensures RecordsOf(tokens[..k + 1]) == recs[..k]
    {
      RecordsOfWrittenPrefix(recs, k);
    }
    assert tokens[..|recs| + 1][..|recs| + 1] == tokens[..|recs| + 1];
    assert tokens[..|tokens| - 1] == tokens[..|recs| + 1];
    assert recs[..|recs|] == recs;
  }

  /**
   * Round trip through the token stream: writing the encoding of a list
   * under distinct non-zero ids and decoding what was written gives the list
   * back, or `NoElements` for the empty list.
   */
  lemma WrittenRoundTrip(shape: Shape, ids: seq<int>)
    requires WellFormed(shape) && |ids| == |shape| && Distinct(ids) && NonZeroIds(ids)
    ensures DecodeRecords(RecordsOf(Written(EncodeShape(shape, ids)))) ==
            if |shape| == 0 then Err(NoElements) else Ok(shape)
  {
    RecordsOfWritten(EncodeShape(shape, ids));
    if |shape| > 0 {
      DecodeEncode(shape, ids);
    }
  }

  lemma {:induction false} RecordsOfWrittenPrefix(recs: seq<Record>, k: nat)
    requires k <= |recs|
    ensures RecordsOf(Written(recs)[..k + 1]) == recs[..k]
  {
    var tokens := Written(recs);
    if k == 0 {
      assert tokens[..1][..0] == [];
    } else {
      RecordsOfWrittenPrefix(recs, k - 1);
      assert tokens[..k + 1][..k] == tokens[..k];
      assert recs[..k] == recs[..k - 1] + [recs[k - 1]];
    }
  }

  /** Reading one more record: its id is found where it was, or at the new position if it is new. */
  lemma PositionOfSnoc(read: seq<Record>, rec: Record, id: int)
    ensures PositionOf(read + [rec], id) ==
              (if PositionOf(read, id).Some? then PositionOf(read, id)
               else if rec.id == id then Some(|read|) else None)
  {
    var s := read + [rec];
    assert s[|read|] == rec;
    var q := PositionOf(read, id);
    if q.Some? {
      assert s[q.value].id == id;
      forall k | 0 <= k < q.value ensures s[k].id != id {
        assert s[k] == read[k];
      }
    } else {
      forall k | 0 <= k < |read| ensures s[k].id != id {
        assert s[k] == read[k];
      }
    }
  }

  /** The decoder's registry by id: `deserializedNodes` holds the first node read under each id of `read`, and no other id. */
  ghost predicate Registry(read: seq<Record>, nodes: seq<ListNode>, deserializedNodes: map<int, ListNode>) {
    && |nodes| == |read|
    && (forall id :: id in deserializedNodes <==> PositionOf(read, id).Some?)
    && (forall id :: id in deserializedNodes ==> deserializedNodes[id] == nodes[PositionOf(read, id).value])
  }

  /** Registering the node of one more record under its id, unless the id is already taken. */
  lemma RegistryStep(read: seq<Record>, nodes: seq<ListNode>, deserializedNodes: map<int, ListNode>, rec: Record, current: ListNode)
    requires Registry(read, nodes, deserializedNodes)
    ensures Registry(read + [rec], nodes + [current],
                     if rec.id in deserializedNodes then deserializedNodes else deserializedNodes[rec.id := current])
  {
    var m := if rec.id in deserializedNodes then deserializedNodes else deserializedNodes[rec.id := current];
    forall id
      ensures id in m <==> PositionOf(read + [rec], id).Some?
      ensures id in m ==> m[id] == (nodes + [current])[PositionOf(read + [rec], id).value]
    {
      PositionOfSnoc(read, rec, id);
    }
  }

  /** Reading one more record leaves the first-pass cells of the earlier records as they were. */
  lemma FirstPassSnoc(read: seq<Record>, rec: Record)
    ensures FirstPass(read + [rec]) == FirstPass(read) + [FirstPassCell(read + [rec], |read|)]
  {
    var s := read + [rec];
    forall i | 0 <= i < |read|
      ensures FirstPassCell(s, i) == FirstPassCell(read, i)
    {
      assert s[..i + 1] == read[..i + 1];
    }
  }

  /** Reading one more record leaves the deferred positions among the earlier records as they were. */
  lemma {:induction false} DeferredSnoc(read: seq<Record>, rec: Record, from: nat)
    requires from <= |read|
    ensures DeferredFrom(read + [rec], from) ==
              DeferredFrom(read, from) + (if Deferred(read + [rec], |read|) then [|read|] else [])
    decreases |read| - from
  {
    if from == |read| {
      DeferredSnocEnd(read, rec);
    } else {
      DeferredSnoc(read, rec, from + 1);
      DeferredSnocStep(read, rec, from);
    }
  }

  /** The base case of `DeferredSnoc`: only the appended record is left to scan. */
  lemma DeferredSnocEnd(read: seq<Record>, rec: Record)
    ensures DeferredFrom(read + [rec], |read|) ==
              DeferredFrom(read, |read|) + (if Deferred(read + [rec], |read|) then [|read|] else [])
  {
    var s := read + [rec];
    var tail: seq<nat> := if Deferred(s, |read|) then [|read|] else [];
    assert DeferredFrom(s, |read|) == tail + DeferredFrom(s, |read| + 1);
    assert DeferredFrom(s, |read| + 1) == [];
    assert tail + [] == tail && [] + tail == tail;
  }

  /** The step of `DeferredSnoc`: position `from` of `read` is deferred in both streams or in neither. */
  lemma DeferredSnocStep(read: seq<Record>, rec: Record, from: nat)
    requires from < |read|
    requires DeferredFrom(read + [rec], from + 1) ==
               DeferredFrom(read, from + 1) + (if Deferred(read + [rec], |read|) then [|read|] else [])
    ensures DeferredFrom(read + [rec], from) ==
              DeferredFrom(read, from) + (if Deferred(read + [rec], |read|) then [|read|] else [])
  {
    var s := read + [rec];
    var tail: seq<nat> := if Deferred(s, |read|) then [|read|] else [];
    assert Deferred(s, from) == Deferred(read, from) by {
      assert s[..from + 1] == read[..from + 1];
    }
    var head: seq<nat> := if Deferred(read, from) then [from] else [];
    assert DeferredFrom(s, from) == head + DeferredFrom(s, from + 1);
    assert DeferredFrom(read, from) == head + DeferredFrom(read, from + 1);
    Reassociate(head, DeferredFrom(read, from + 1), tail);
  }

  /**
   * The cells after the resolution pass has settled the deferred links of
   * the positions before `before`; every other position keeps its first-pass cell.
   */
  ghost function Settled(recs: seq<Record>, before: nat): (cells: seq<Cell>)
    ensures |cells| == |recs| && WellFormed(cells)
  {
    seq(|recs|, i requires 0 <= i < |recs| =>
      if Deferred(recs, i) && i >= before then FirstPassCell(recs, i) else ResolveCell(recs, i))
  }

  /** Before the resolution pass, the cells are those of the first pass. */
  lemma SettledNone(recs: seq<Record>)
    ensures Settled(recs, 0) == FirstPass(recs)
  {
    forall i | 0 <= i < |recs| && !Deferred(recs, i)
      ensures ResolveCell(recs, i) == FirstPassCell(recs, i)
    {
      if recs[i].randomId.Some? {
        PositionOfPrefix(recs, i + 1, recs[i].randomId.value);
      }
    }
  }

  /** After it, they are the decoded list. */
  lemma SettledAll(recs: seq<Record>)
    ensures Settled(recs, |recs|) == Resolve(recs)
  {
  }

  /** Settling deferred position `p` resolves its random link and nothing else. */
  lemma SettledStep(recs: seq<Record>, p: nat)
    requires p < |recs| && Deferred(recs, p)
    ensures Settled(recs, p + 1) == Settled(recs, p)[p := ResolveCell(recs, p)]
  {
  }

  /** Moving the threshold over positions that are not deferred changes nothing. */
  lemma SettledSkip(recs: seq<Record>, from: nat, to: nat)
    requires from <= to <= |recs|
    requires forall i :: from <= i < to ==> !Deferred(recs, i)
    ensures Settled(recs, from) == Settled(recs, to)
  {
  }

  /**
   * The deferred positions in stream order leave no deferred position
   * before the first one, between two consecutive ones, or after the last.
   */
  lemma DeferredGaps(recs: seq<Record>, a: nat)
    requires a <= |DeferredFrom(recs, 0)|
    ensures var q := DeferredFrom(recs, 0);
      forall i :: (if a == 0 then 0 else q[a - 1] + 1) <= i < (if a < |q| then q[a] else |recs|) ==> !Deferred(recs, i)
  {
    var q := DeferredFrom(recs, 0);
    var lo := if a == 0 then 0 else q[a - 1] + 1;
    var hi := if a < |q| then q[a] else |recs|;
    forall i | lo <= i < hi
      ensures !Deferred(recs, i)
    {
      forall b | 0 <= b < |q|
        ensures q[b] != i
      {
        if b < a - 1 {
          assert q[b] < q[a - 1];
        } else if a < b {
          assert q[a] < q[b];
        }
      }
    }
  }

  /** The threshold of `Settled` while the first `a` deferred positions are settled. */
  function SettledBefore(recs: seq<Record>, a: nat): nat
  {
    var q := DeferredFrom(recs, 0);
    if a < |q| then q[a] else |recs|
  }

  /** Before the first deferred position is settled, the cells are those of the first pass. */
  lemma SettledFirst(recs: seq<Record>)
    ensures SettledBefore(recs, 0) <= |recs|
    ensures Settled(recs, SettledBefore(recs, 0)) == FirstPass(recs)
  {
    SettledNone(recs);
    DeferredGaps(recs, 0);
    SettledSkip(recs, 0, SettledBefore(recs, 0));
  }

  /** Settling the `a`-th deferred position reaches the threshold of the next one. */
  lemma SettledNext(recs: seq<Record>, a: nat)
    requires a < |DeferredFrom(recs, 0)|
    ensures DeferredFrom(recs, 0)[a] < SettledBefore(recs, a + 1) <= |recs|
    ensures Settled(recs, SettledBefore(recs, a + 1)) == Settled(recs, DeferredFrom(recs, 0)[a] + 1)
  {
    var q := DeferredFrom(recs, 0);
    DeferredGaps(recs, a + 1);
    if a + 1 < |q| {
      assert q[a] < q[a + 1];
    }
    SettledSkip(recs, q[a] + 1, SettledBefore(recs, a + 1));
  }

  /** When no deferred position dangles, no position does. */
  lemma NoneDangling(recs: seq<Record>)
    requires forall b :: 0 <= b < |DeferredFrom(recs, 0)| ==> !Dangles(recs, DeferredFrom(recs, 0)[b])
    ensures !HasDangling(recs)
  {
    var q := DeferredFrom(recs, 0);
    forall i | 0 <= i < |recs|
      ensures !Dangles(recs, i)
    {
      if Deferred(recs, i) {
        assert i in q;
        var b :| 0 <= b < |q| && q[b] == i;
      } else {
        RegisteredNotDangling(recs, i);
      }
    }
  }

  /** A position whose random id is registered during the first pass never dangles. */
  lemma RegisteredNotDangling(recs: seq<Record>, i: nat)
    requires i < |recs| && !Deferred(recs, i)
    ensures !Dangles(recs, i)
  {
    if recs[i].randomId.Some? {
      PositionOfPrefix(recs, i + 1, recs[i].randomId.value);
    }
  }

  /**
   * The discrepancy: two records share id 5 and the second one's random id 7
   * is a forward reference. As written, the deferred link is attached to the
   * FIRST record's node, which names no random id at all, and the second
   * node is left without its link; the corrected decoder links the second.
   */
  const DuplicateIdStream: seq<Record> := [Record(5, Some("a"), None), Record(5, Some("b"), Some(7)), Record(7, Some("c"), None)]

  /** In that stream only the second record's link is deferred: id 7 is read after it. */
  lemma DuplicateIdStreamDeferred()
    ensures DeferredFrom(DuplicateIdStream, 0) == [1]
  {
    var recs := DuplicateIdStream;
    assert recs[..2] == [recs[0], recs[1]];
    assert PositionOf(recs[..2], 7) == None;
    assert !Deferred(recs, 0) && Deferred(recs, 1) && !Deferred(recs, 2);
  }

  /** The first pass leaves every random edge of that stream unresolved. */
  lemma DuplicateIdStreamFirstPass()
    ensures FirstPass(DuplicateIdStream) == [Cell(Some("a"), None), Cell(Some("b"), None), Cell(Some("c"), None)]
  {
    var recs := DuplicateIdStream;
    assert recs[..2] == [recs[0], recs[1]];
    assert PositionOf(recs[..2], 7) == None;
  }

  /**
   * Resolving the deferred link of record 1 as written: the lookup under its
   * own id 5 finds record 0, which receives the edge to position 2.
   */
  lemma DuplicateIdStreamResolved()
    ensures ResolveAsWritten(DuplicateIdStream, [Cell(Some("a"), None), Cell(Some("b"), None), Cell(Some("c"), None)], [1])
         == Ok([Cell(Some("a"), Some(2)), Cell(Some("b"), None), Cell(Some("c"), None)])
  {
    var recs := DuplicateIdStream;
    assert PositionOf(recs, 5) == Some(0);
    assert PositionOf(recs, 7) == Some(2);
    var cells := [Cell(Some("a"), None), Cell(Some("b"), None), Cell(Some("c"), None)];
    var resolved := [Cell(Some("a"), Some(2)), Cell(Some("b"), None), Cell(Some("c"), None)];
    assert cells[0 := Cell(cells[0].data, Some(2))] == resolved;
    assert [1][1..] == [];
    assert ResolveAsWritten(recs, resolved, []) == Ok(resolved);
  }

  lemma AsWrittenMisplacesDeferredLink()
    ensures DecodeRecordsAsWritten(DuplicateIdStream) == Ok([Cell(Some("a"), Some(2)), Cell(Some("b"), None), Cell(Some("c"), None)])
  {
    DuplicateIdStreamDeferred();
    DuplicateIdStreamFirstPass();
    DuplicateIdStreamResolved();
    assert !HasZeroId(DuplicateIdStream);
  }

  /** On the same stream the corrected decoder links the second record, the one that names id 7. */
  lemma CorrectedLinksDuplicate()
    ensures DecodeRecords(DuplicateIdStream) == Ok([Cell(Some("a"), None), Cell(Some("b"), Some(2)), Cell(Some("c"), None)])
  {
    var recs := DuplicateIdStream;
    assert PositionOf(recs, 7) == Some(2);
    assert !HasZeroId(recs);
    assert !Dangles(recs, 1);
    assert !HasDangling(recs);
    assert Resolve(recs) == [Cell(Some("a"), None), Cell(Some("b"), Some(2)), Cell(Some("c"), None)];
  }

  /** Some deferred position from the `a`-th on names an id that no record carries. */
  predicate DanglesDeferred(recs: seq<Record>, a: nat) {
    var q := DeferredFrom(recs, 0);
    exists b :: a <= b < |q| && Dangles(recs, q[b])
  }

  /**
   * Under distinct ids the record's own id finds the record itself, so the
   * resolution pass as written settles the deferred links from the `a`-th on
   * exactly as the corrected decoder does.
   */
  lemma {:induction false} AsWrittenFrom(recs: seq<Record>, a: nat)
    requires Distinct(IdsOf(recs)) && a <= |DeferredFrom(recs, 0)|
    ensures var q := DeferredFrom(recs, 0);
      (forall b :: 0 <= b < |q[a..]| ==> q[a..][b] < |recs| && recs[q[a..][b]].randomId.Some?) &&
      ResolveAsWritten(recs, Settled(recs, SettledBefore(recs, a)), q[a..]) ==
      if DanglesDeferred(recs, a) then Err(DanglingReference) else Ok(Resolve(recs))
    decreases |DeferredFrom(recs, 0)| - a
  {
    var q := DeferredFrom(recs, 0);
    assert forall b :: 0 <= b < |q[a..]| ==> q[a..][b] in q;
    if a == |q| {
      assert q[a..] == [];
      SettledAll(recs);
    } else {
      var i := q[a];
      assert i in q;
      assert q[a..][0] == i && q[a..][1..] == q[a + 1..];
      OwnPosition(recs, i);
      if Dangles(recs, i) {
        assert DanglesDeferred(recs, a);
      } else {
        SettleOwn(recs, a);
        AsWrittenFrom(recs, a + 1);
        assert DanglesDeferred(recs, a) <==> DanglesDeferred(recs, a + 1) by {
          if DanglesDeferred(recs, a) {
            var b :| a <= b < |q| && Dangles(recs, q[b]);
            assert b != a;
          }
        }
      }
    }
  }

  /** Under distinct ids, a record's own id is first carried by that record. */
  lemma {:induction false} OwnPosition(recs: seq<Record>, i: nat)
    requires Distinct(IdsOf(recs)) && i < |recs|
    ensures PositionOf(recs, recs[i].id) == Some(i)
  {
    var ids := IdsOf(recs);
    var p := PositionOf(recs, recs[i].id);
    assert recs[i].id == recs[i].id;
    assert p.Some?;
    assert ids[p.value] == ids[i];
  }

  /** Settling the `a`-th deferred position, found by its own id, reaches the next threshold. */
  lemma SettleOwn(recs: seq<Record>, a: nat)
    requires a < |DeferredFrom(recs, 0)|
    requires recs[DeferredFrom(recs, 0)[a]].randomId.Some? && PositionOf(recs, recs[DeferredFrom(recs, 0)[a]].randomId.value).Some?
    ensures var i := DeferredFrom(recs, 0)[a];
      var cells := Settled(recs, SettledBefore(recs, a));
      cells[i := Cell(cells[i].data, PositionOf(recs, recs[i].randomId.value))] == Settled(recs, SettledBefore(recs, a + 1))
  {
    var q := DeferredFrom(recs, 0);
    var i := q[a];
    assert i in q;
    SettledStep(recs, i);
    SettledNext(recs, a);
  }

  /**
   * The discrepancy needs a repeated id: with distinct ids the decoder as
   * written and the corrected decoder give the same outcome on every stream.
   */
  lemma AsWrittenAgreesOnUniqueIds(recs: seq<Record>)
    requires Distinct(IdsOf(recs))
    ensures DecodeRecordsAsWritten(recs) == DecodeRecords(recs)
  {
    if !HasZeroId(recs) {
      var q := DeferredFrom(recs, 0);
      AsWrittenFrom(recs, 0);
      SettledFirst(recs);
      assert q[0..] == q;
      if DanglesDeferred(recs, 0) {
        var b :| 0 <= b < |q| && Dangles(recs, q[b]);
        assert HasDangling(recs);
      } else {
        NoneDangling(recs);
      }
    }
  }
}
