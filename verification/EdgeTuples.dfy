/** One adjacency entry of `graph_edge.rs` and its overflow tuple: neighbour,
    edge id, type (a 16-bit code when the types are remapped) and weight. Weights
    are single-precision bit patterns. */
module EdgeTuples {
  import opened Wrappers
  import opened Bytes
  import opened Ordering
  import opened TaggedNeighbors
  import opened GroupedSections

  datatype Edge = Edge(stored: Neighbor, nid: u64, edgeId: u64, typeId: u32, weight: Option<u32>)

  /** How entries are written: type codes through a remap table or raw types, and with or without weights. */
  datatype Layout = Layout(remap: Option<seq<u32>>, weighted: bool) {

    function TypeWidth(): nat {
      if remap.Some? then 2 else 4
    }

    function WeightWidth(): nat {
      if weighted then 4 else 0
    }

    function TypeWidthCode(): Width {
      if remap.Some? then WidthU16 else WidthU32
    }

    ghost predicate Valid() {
      remap.Some? ==> |remap.value| <= 65536
    }
  }

  // ----- Node handles -----

  /** The handle of a local node; `nids` lists the handles by ordinal. */
  function LocalNid(nids: seq<u64>, ordinal: int): Result<u64> {
    if 0 <= ordinal < |nids| && ordinal < U32_LIMIT && ValidHandle(nids[ordinal]) then Ok(nids[ordinal]) else Err
  }

  /** A stored neighbour resolved from the row of `node`; a handle the index knows must have been stored as local. */
  function ResolveNeighbor(nids: seq<u64>, node: u32, n: Neighbor): Result<u64> {
    match n
    case LocalDelta(delta) => LocalNid(nids, node + delta)
    case Global(nid) => if ValidHandle(nid) && nid !in nids then Ok(nid) else Err
  }

  // ----- Type codes -----

  function IndexOf(s: seq<u32>, x: u32): (r: Option<nat>)
    ensures r.Some? <==> x in s
    ensures r.Some? ==> r.value < |s| && s[r.value] == x
  {
    if s == [] then None
    else if s[0] == x then Some(0)
    else
      var rest := IndexOf(s[1..], x);
      if rest.Some? then Some(rest.value + 1) else None
  }

  function TypeCode(l: Layout, typeId: u32): Option<nat> {
    match l.remap
    case None => Some(typeId)
    case Some(types) => IndexOf(types, typeId)
  }

  function TypeOfCode(l: Layout, code: nat): Result<u32> {
    match l.remap
    case None => if code < U32_LIMIT then Ok(code) else Err
    case Some(types) => if code < |types| then Ok(types[code]) else Err
  }

  lemma {:induction false} TypeCodeReads(l: Layout, typeId: u32)
    requires l.Valid() && TypeCode(l, typeId).Some?
    ensures TypeOfCode(l, TypeCode(l, typeId).value) == Ok(typeId)
    ensures TypeCode(l, typeId).value < Pow256(l.TypeWidth())
  {
    PowValues();
  }

  // ----- Entries -----

  /** An entry the builder admits in the row of `node`. */
  predicate EdgeValid(nids: seq<u64>, node: u32, e: Edge, l: Layout) {
    && ValidHandle(e.edgeId)
    && e.typeId != 0
    && TypeCode(l, e.typeId).Some?
    && e.weight.Some? == l.weighted
    && (e.weight.Some? ==> FiniteF32(e.weight.value))
    && Encodable(e.stored)
    && ResolveNeighbor(nids, node, e.stored) == Ok(e.nid)
  }

  /** Rows ascend by type, then neighbour handle, then edge id. */
  function EdgeKey(e: Edge): Key {
    [e.typeId, e.nid, e.edgeId]
  }

  predicate RowSorted(edges: seq<Edge>) {
    Ascending(edges, EdgeKey)
  }

  function TupleLen(l: Layout): Edge -> nat {
    (e: Edge) => |Encoding(e.stored)| + 8 + l.TypeWidth() + l.WeightWidth()
  }

  lemma {:induction false} TupleLenBounds(l: Layout, e: Edge)
    ensures 12 <= TupleLen(l)(e) <= 27
  {
    UlebRoundTrip(Payload(e.stored));
  }

  function TupleTail(e: Edge, l: Layout, code: nat): (s: bytes)
    requires e.weight.Some? == l.weighted
    ensures |s| == 8 + l.TypeWidth() + l.WeightWidth()
  {
    Put64(e.edgeId) + LE(code, l.TypeWidth()) + (if l.weighted then Put32(e.weight.value) else [])
  }

  function Tuple(e: Edge, l: Layout): (s: bytes)
    requires e.weight.Some? == l.weighted && TypeCode(l, e.typeId).Some?
    ensures |s| == TupleLen(l)(e)
  {
    Encoding(e.stored) + TupleTail(e, l, TypeCode(l, e.typeId).value)
  }

  /** An entry from its stored fields. */
  function DecodeFields(
    nids: seq<u64>, node: u32, stored: Neighbor, edgeId: u64, code: nat, bits: Option<u32>, l: Layout): Result<Edge> {
    if !ValidHandle(edgeId) then Err
    else
      var typeId :- TypeOfCode(l, code);
      :- Need(typeId != 0);
      var nid :- ResolveNeighbor(nids, node, stored);
      Ok(Edge(stored, nid, edgeId, typeId, bits))
  }

  function DecodeTuple(nids: seq<u64>, node: u32, s: bytes, l: Layout): (r: Result<(Edge, nat)>)
    ensures r.Ok? ==> 0 < r.value.1 <= |s|
  {
    var (stored, k) :- DecodeTaggedNeighborPrefix(s);
    var end := k + 8 + l.TypeWidth() + l.WeightWidth();
    :- Need(end <= |s|);
    var code := FromLE(s[k + 8..k + 8 + l.TypeWidth()]);
    var bits := if l.weighted then Some(Get32(s, end - 4)) else None;
    var edge :- DecodeFields(nids, node, stored, Get64(s, k), code, bits, l);
    :- Need(bits.Some? ==> FiniteF32(bits.value));
    Ok((edge, end))
  }

  lemma {:induction false} FieldsRead(nids: seq<u64>, node: u32, e: Edge, l: Layout)
    requires l.Valid() && EdgeValid(nids, node, e, l)
    ensures DecodeFields(nids, node, e.stored, e.edgeId, TypeCode(l, e.typeId).value, e.weight, l) == Ok(e)
  {
    TypeCodeReads(l, e.typeId);
  }

  lemma {:induction false} TailReads(head: bytes, e: Edge, l: Layout, code: nat, rest: bytes)
    requires e.weight.Some? == l.weighted && code < Pow256(l.TypeWidth())
    ensures var s := head + TupleTail(e, l, code) + rest;
      var k := |head|;
      var end := k + 8 + l.TypeWidth() + l.WeightWidth();
      && end <= |s|
      && Get64(s, k) == e.edgeId
      && FromLE(s[k + 8..k + 8 + l.TypeWidth()]) == code
      && (l.weighted ==> Get32(s, end - 4) == e.weight.value)
  {
    hide FromLE, LE;
    var s := head + TupleTail(e, l, code) + rest;
    var k := |head|;
    var typeEnd := k + 8 + l.TypeWidth();
    assert s[k..k + 8] == Put64(e.edgeId);
    assert s[k + 8..typeEnd] == LE(code, l.TypeWidth());
    LERoundTrip(code, l.TypeWidth());
    if l.weighted {
      assert s[typeEnd..typeEnd + 4] == Put32(e.weight.value);
    }
  }

  /** A tuple followed by anything reads back as its entry and its length. */
  lemma {:induction false} TupleReads(nids: seq<u64>, node: u32, e: Edge, l: Layout, rest: bytes)
    requires l.Valid() && EdgeValid(nids, node, e, l)
    ensures DecodeTuple(nids, node, Tuple(e, l) + rest, l) == Ok((e, |Tuple(e, l)|))
  {
    hide FromLE, LE, Encoding, DecodeTaggedNeighborPrefix, DecodeFields, TypeCode, ValidHandle, FiniteF32;
    var head, code := Encoding(e.stored), TypeCode(l, e.typeId).value;
    var s := Tuple(e, l) + rest;
    var tail := TupleTail(e, l, code);
    assert s == head + (tail + rest) && s == head + tail + rest;
    DecodeEncoding(e.stored, tail + rest);
    TypeCodeReads(l, e.typeId);
    TailReads(head, e, l, code, rest);
    FieldsRead(nids, node, e, l);
  }

  /** Entries one after another, exactly `count` of them, using up `s`. */
  function DecodeTuples(nids: seq<u64>, node: u32, s: bytes, count: nat, l: Layout): (r: Result<seq<Edge>>)
    ensures r.Ok? ==> |r.value| == count
    decreases count
  {
    if count == 0 then
      if s == [] then Ok([]) else Err
    else
      var (edge, consumed) :- DecodeTuple(nids, node, s, l);
      var rest :- DecodeTuples(nids, node, s[consumed..], count - 1, l);
      Ok([edge] + rest)
  }

  /** The loader's cursor loop over one chunk's payload. */
  method DecodeChunkTuples(
    nids: seq<u64>, node: u32, payload: bytes, count: nat, l: Layout) returns (r: Result<seq<Edge>>)
    ensures r == DecodeTuples(nids, node, payload, count, l)
  {
    hide DecodeTuple;
    var cursor := 0;
    var decoded: seq<Edge> := [];
    assert payload[0..] == payload;
    ghost var all := DecodeTuples(nids, node, payload, count, l);
    assert all.Ok? ==> decoded + all.value == all.value;
    for i := 0 to count
      invariant cursor <= |payload| && |decoded| == i
      invariant var rest := DecodeTuples(nids, node, payload[cursor..], count - i, l);
        DecodeTuples(nids, node, payload, count, l) == if rest.Ok? then Ok(decoded + rest.value) else Err
    {
      var next := DecodeTuple(nids, node, payload[cursor..], l);
      if next.Err? {
        return Err;
      }
      var (edge, consumed) := next.value;
      assert payload[cursor..][consumed..] == payload[cursor + consumed..];
      ghost var rest := DecodeTuples(nids, node, payload[cursor + consumed..], count - i - 1, l);
      if rest.Ok? {
        assert decoded + ([edge] + rest.value) == (decoded + [edge]) + rest.value;
      }
      decoded := decoded + [edge];
      cursor := cursor + consumed;
    }
    assert payload[cursor..] == [] <==> cursor == |payload|;
    assert decoded + [] == decoded;
    if cursor != |payload| {
      return Err;
    }
    return Ok(decoded);
  }

  predicate AllValid(nids: seq<u64>, node: u32, edges: seq<Edge>, l: Layout) {
    forall i :: 0 <= i < |edges| ==> EdgeValid(nids, node, edges[i], l)
  }

  function TuplesBytes(edges: seq<Edge>, l: Layout): (s: bytes)
    requires forall i :: 0 <= i < |edges| ==> edges[i].weight.Some? == l.weighted && TypeCode(l, edges[i].typeId).Some?
  {
    if edges == [] then [] else Tuple(edges[0], l) + TuplesBytes(edges[1..], l)
  }

  lemma {:induction false} TuplesRead(nids: seq<u64>, node: u32, edges: seq<Edge>, l: Layout)
    requires l.Valid() && AllValid(nids, node, edges, l)
    ensures DecodeTuples(nids, node, TuplesBytes(edges, l), |edges|, l) == Ok(edges)
  {
    hide DecodeTuple, Tuple;
    if edges != [] {
      var rest := TuplesBytes(edges[1..], l);
      TupleReads(nids, node, edges[0], l, rest);
      TuplesRead(nids, node, edges[1..], l);
      var s := TuplesBytes(edges, l);
      assert s[|Tuple(edges[0], l)|..] == rest;
      assert edges == [edges[0]] + edges[1..];
    }
  }
}
