/** The inline arrays of one direction of one namespace group (`graph_edge.rs`):
    row offsets and the parallel neighbour, edge-id, type and weight columns. */
module EdgeColumns {
  import opened Wrappers
  import opened Bytes
  import opened Ordering
  import opened TaggedNeighbors
  import opened GroupedSections
  import opened EdgeTuples

  datatype Columns = Columns(offsets: Group, neighbors: Group, edgeIds: Group, types: Group, weights: Option<Group>)

  // ----- The writer -----

  function RowStarts(rows: seq<seq<Edge>>): (r: seq<nat>)
    ensures |r| == |rows| + 1
    ensures forall i :: 0 <= i < |r| ==> r[i] == Start(rows, i)
  {
    seq(|rows| + 1, i requires 0 <= i <= |rows| => Start(rows, i))
  }

  function StoredColumn(edges: seq<Edge>): (r: seq<Neighbor>)
    ensures |r| == |edges| && forall i :: 0 <= i < |r| ==> r[i] == edges[i].stored
  {
    seq(|edges|, i requires 0 <= i < |edges| => edges[i].stored)
  }

  function IdColumn(edges: seq<Edge>): (r: seq<nat>)
    ensures |r| == |edges| && forall i :: 0 <= i < |r| ==> r[i] == edges[i].edgeId
  {
    seq(|edges|, i requires 0 <= i < |edges| => edges[i].edgeId)
  }

  predicate Writable(edges: seq<Edge>, l: Layout) {
    forall i :: 0 <= i < |edges| ==> TypeCode(l, edges[i].typeId).Some? && (l.weighted ==> edges[i].weight.Some?)
  }

  function CodeColumn(edges: seq<Edge>, l: Layout): (r: seq<nat>)
    requires Writable(edges, l)
    ensures |r| == |edges| && forall i :: 0 <= i < |r| ==> r[i] == TypeCode(l, edges[i].typeId).value
  {
    seq(|edges|, i requires 0 <= i < |edges| => TypeCode(l, edges[i].typeId).value)
  }

  function WeightColumn(edges: seq<Edge>, l: Layout): (r: seq<nat>)
    requires Writable(edges, l) && l.weighted
    ensures |r| == |edges| && forall i :: 0 <= i < |r| ==> r[i] == edges[i].weight.value
  {
    seq(|edges|, i requires 0 <= i < |edges| => edges[i].weight.value)
  }

  function EncodeColumns(rows: seq<seq<Edge>>, l: Layout): Result<Columns> {
    var edges := Flat(rows);
    :- Need(Writable(edges, l) && |edges| < U64_LIMIT && |rows| + 1 < U64_LIMIT);
    var neighbors :- EncodeTaggedNeighbors(StoredColumn(edges));
    var n: u64 := |edges|;
    Ok(Columns(
      Group(|rows| + 1, PutWords(RowStarts(rows), 8)),
      Group(n, neighbors),
      Group(n, PutWords(IdColumn(edges), 8)),
      Group(n, PutWords(CodeColumn(edges, l), l.TypeWidth())),
      if l.weighted then Some(Group(n, PutWords(WeightColumn(edges, l), 4))) else None))
  }

  // ----- The loader -----

  datatype Arrays = Arrays(neighbors: seq<Neighbor>, edgeIds: seq<u64>, codes: seq<nat>, weights: Option<seq<u32>>) {

    predicate Parallel() {
      |edgeIds| == |codes| == |neighbors| && (weights.Some? ==> |weights.value| == |neighbors|)
    }
  }

  function EntryAt(nids: seq<u64>, node: u32, a: Arrays, l: Layout, k: nat): Result<Edge>
    requires a.Parallel() && k < |a.neighbors|
  {
    DecodeFields(nids, node, a.neighbors[k], a.edgeIds[k], a.codes[k],
      if a.weights.Some? then Some(a.weights.value[k]) else None, l)
  }

  function DecodeSpan(nids: seq<u64>, node: u32, a: Arrays, l: Layout, start: nat, end: nat): (r: Result<seq<Edge>>)
    requires a.Parallel() && start <= end <= |a.neighbors|
    ensures r.Ok? ==> |r.value| == end - start
    decreases end - start
  {
    if start == end then Ok([])
    else
      var edge :- EntryAt(nids, node, a, l, start);
      var rest :- DecodeSpan(nids, node, a, l, start + 1, end);
      Ok([edge] + rest)
  }

  function DecodeRows(
    nids: seq<u64>, ordinals: seq<u32>, offsets: seq<nat>, a: Arrays, l: Layout, i: nat): (r: Result<seq<seq<Edge>>>)
    requires a.Parallel() && |offsets| == |ordinals| + 1 && i <= |ordinals|
    ensures r.Ok? ==> |r.value| == |ordinals| - i
    decreases |ordinals| - i
  {
    if i == |ordinals| then Ok([])
    else if !(offsets[i] <= offsets[i + 1] <= |a.neighbors|) then Err
    else
      var edges :- DecodeSpan(nids, ordinals[i], a, l, offsets[i], offsets[i + 1]);
      :- Need(RowSorted(edges));
      var rest :- DecodeRows(nids, ordinals, offsets, a, l, i + 1);
      Ok([edges] + rest)
  }

  function ReadArrays(c: Columns, n: nat, l: Layout): (r: Result<Arrays>)
    ensures r.Ok? ==> r.value.Parallel()
  {
    var neighbors :- DecodeTaggedNeighbors(c.neighbors.payload, n);
    PowValues();
    var edgeIds := Words(c.edgeIds.payload, 8);
    var codes := Words(c.types.payload, l.TypeWidth());
    var weights := if c.weights.Some? then Some(Words(c.weights.value.payload, 4)) else None;
    var a := Arrays(neighbors, edgeIds, codes, weights);
    :- Need(a.Parallel());
    Ok(a)
  }

  function DecodeDirection(nids: seq<u64>, ordinals: seq<u32>, c: Columns, l: Layout): (r: Result<seq<seq<Edge>>>)
    ensures r.Ok? ==> |r.value| == |ordinals|
  {
    var offsets := Words(c.offsets.payload, 8);
    :- Need(c.offsets.elemCount == |ordinals| + 1 == |offsets| && offsets[0] == 0);
    var n := offsets[|ordinals|];
    :- Need(c.neighbors.elemCount == c.edgeIds.elemCount == c.types.elemCount == n);
    :- Need(c.weights.Some? ==> c.weights.value.elemCount == n);
    var arrays :- ReadArrays(c, n, l);
    DecodeRows(nids, ordinals, offsets, arrays, l, 0)
  }

  // ----- The loader undoes the writer -----

  predicate RowsValid(nids: seq<u64>, ordinals: seq<u32>, rows: seq<seq<Edge>>, l: Layout) {
    && |rows| == |ordinals|
    && forall i :: 0 <= i < |rows| ==> RowValid(nids, ordinals[i], rows[i], l)
  }

  predicate RowValid(nids: seq<u64>, node: u32, row: seq<Edge>, l: Layout) {
    AllValid(nids, node, row, l) && RowSorted(row)
  }

  function ArraysOf(edges: seq<Edge>, l: Layout): (a: Arrays)
    requires Writable(edges, l)
    ensures a.Parallel() && |a.neighbors| == |edges|
  {
    Arrays(StoredColumn(edges), IdColumn(edges), CodeColumn(edges, l),
      if l.weighted then Some(WeightColumn(edges, l)) else None)
  }

  lemma {:induction false} SpanReads(nids: seq<u64>, node: u32, edges: seq<Edge>, l: Layout, start: nat, end: nat)
    requires l.Valid() && Writable(edges, l) && start <= end <= |edges|
    requires forall k :: start <= k < end ==> EdgeValid(nids, node, edges[k], l)
    ensures DecodeSpan(nids, node, ArraysOf(edges, l), l, start, end) == Ok(edges[start..end])
    decreases end - start
  {
    hide DecodeFields, EdgeValid;
    if start < end {
      EntryReads(nids, node, edges, l, start);
      SpanReads(nids, node, edges, l, start + 1, end);
      assert edges[start..end] == [edges[start]] + edges[start + 1..end];
    }
  }

  lemma {:induction false} EntryReads(nids: seq<u64>, node: u32, edges: seq<Edge>, l: Layout, k: nat)
    requires l.Valid() && Writable(edges, l) && k < |edges| && EdgeValid(nids, node, edges[k], l)
    ensures EntryAt(nids, node, ArraysOf(edges, l), l, k) == Ok(edges[k])
  {
    FieldsRead(nids, node, edges[k], l);
  }

  lemma {:induction false} RowsRead(nids: seq<u64>, ordinals: seq<u32>, rows: seq<seq<Edge>>, l: Layout, i: nat)
    requires l.Valid() && RowsValid(nids, ordinals, rows, l) && Writable(Flat(rows), l) && i <= |rows|
    ensures DecodeRows(nids, ordinals, RowStarts(rows), ArraysOf(Flat(rows), l), l, i) == Ok(rows[i..])
    decreases |rows| - i
  {
    hide EdgeValid, DecodeSpan, RowSorted, Flat, TypeCode;
    if i < |rows| {
      var edges := Flat(rows);
      var start, end := Start(rows, i), Start(rows, i + 1);
      FlatSlice(rows, i);
      StartMonotone(rows, i + 1, |rows|);
      assert edges[start..end] == rows[i];
      assert RowValid(nids, ordinals[i], rows[i], l);
      forall k | start <= k < end ensures EdgeValid(nids, ordinals[i], edges[k], l) {
        assert edges[k] == rows[i][k - start];
      }
      SpanReads(nids, ordinals[i], edges, l, start, end);
      RowsRead(nids, ordinals, rows, l, i + 1);
      assert rows[i..] == [rows[i]] + rows[i + 1..];
    } else {
      assert rows[i..] == [];
    }
  }

  lemma {:induction false} ArraysRead(rows: seq<seq<Edge>>, l: Layout, c: Columns)
    requires l.Valid() && EncodeColumns(rows, l) == Ok(c)
    ensures Writable(Flat(rows), l)
    ensures ReadArrays(c, |Flat(rows)|, l) == Ok(ArraysOf(Flat(rows), l))
  {
    hide Flat, TypeCode, DecodeTaggedNeighbors, EncodeTaggedNeighbors, Words, PutWords;
    var edges := Flat(rows);
    NeighborColumnRoundTrip(StoredColumn(edges));
    PowValues();
    WordsRoundTrip(IdColumn(edges), 8);
    CodesFit(edges, l);
    WordsRoundTrip(CodeColumn(edges, l), l.TypeWidth());
    if l.weighted {
      WordsRoundTrip(WeightColumn(edges, l), 4);
    }
  }

  lemma {:induction false} CodesFit(edges: seq<Edge>, l: Layout)
    requires l.Valid() && Writable(edges, l)
    ensures forall i :: 0 <= i < |edges| ==> CodeColumn(edges, l)[i] < Pow256(l.TypeWidth())
  {
    forall i | 0 <= i < |edges| ensures CodeColumn(edges, l)[i] < Pow256(l.TypeWidth()) {
      TypeCodeReads(l, edges[i].typeId);
    }
  }

  lemma {:induction false} OffsetsRead(rows: seq<seq<Edge>>, s: bytes)
    requires s == PutWords(RowStarts(rows), 8) && |Flat(rows)| < U64_LIMIT
    ensures Words(s, 8) == RowStarts(rows)
    ensures RowStarts(rows)[0] == 0 && RowStarts(rows)[|rows|] == |Flat(rows)|
  {
    PowValues();
    forall i | 0 <= i <= |rows| ensures RowStarts(rows)[i] < Pow256(8) {
      StartMonotone(rows, i, |rows|);
    }
    WordsRoundTrip(RowStarts(rows), 8);
    StartTotal(rows);
  }

  /** Decoding the written columns returns the rows, entry for entry. */
  lemma {:induction false} DirectionRoundTrip(
    nids: seq<u64>, ordinals: seq<u32>, rows: seq<seq<Edge>>, l: Layout, c: Columns)
    requires l.Valid() && RowsValid(nids, ordinals, rows, l)
    requires EncodeColumns(rows, l) == Ok(c)
    ensures DecodeDirection(nids, ordinals, c, l) == Ok(rows)
  {
    hide Flat, TypeCode, Words, PutWords, EncodeTaggedNeighbors, ReadArrays, DecodeRows;
    OffsetsRead(rows, c.offsets.payload);
    ArraysRead(rows, l, c);
    RowsRead(nids, ordinals, rows, l, 0);
    assert rows[0..] == rows;
  }
}
