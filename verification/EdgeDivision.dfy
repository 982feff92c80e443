/** What an accepted namespace group stores (`graph_edge.rs`): the tests the loader makes on its way, chunk
    by chunk and row by row, add up to the one division of `RowChunking`, so every row of an accepted group
    is stored exactly as the greedy writer would store it. */
module EdgeDivision {
  import opened Wrappers
  import opened Bytes
  import opened GroupedSections
  import opened RowChunking
  import opened TaggedNeighbors
  import opened EdgeTuples
  import opened EdgeColumns
  import opened EdgeOverflow
  import opened EdgeGroups

  // ----- Chunks -----

  /** A decoded tuple used as many bytes as its entry is counted for. */
  lemma {:induction false} DecodedTupleLength(nids: seq<u64>, node: u32, s: bytes, l: Layout)
    requires DecodeTuple(nids, node, s, l).Ok?
    ensures var (e, k) := DecodeTuple(nids, node, s, l).value; k == TupleLen(l)(e)
  {
    hide DecodeTaggedNeighborPrefix, Encoding, FromLE;
    EncodingOfDecoded(s);
    var (stored, k) := DecodeTaggedNeighborPrefix(s).value;
    assert |s[..k]| == k == |Encoding(stored)|;
    assert DecodeTuple(nids, node, s, l).value.0.stored == stored;
  }

  lemma {:induction false} DecodedTuplesLength(nids: seq<u64>, node: u32, s: bytes, count: nat, l: Layout)
    requires DecodeTuples(nids, node, s, count, l).Ok?
    ensures Sum(DecodeTuples(nids, node, s, count, l).value, TupleLen(l)) == |s|
    decreases count
  {
    hide DecodeTuple, TupleLen;
    if count > 0 {
      DecodedTupleLength(nids, node, s, l);
      var (e, k) := DecodeTuple(nids, node, s, l).value;
      DecodedTuplesLength(nids, node, s[k..], count - 1, l);
      var rest := DecodeTuples(nids, node, s[k..], count - 1, l).value;
      assert ([e] + rest)[1..] == rest;
    }
  }

  /** The length a chunk states is the length of its entries. */
  lemma {:induction false} DecodedChunkLength(nids: seq<u64>, node: u32, chunk: bytes, next: u32, l: Layout)
    requires |chunk| == CHUNK_BYTES && DecodeChunk(nids, node, chunk, next, l).Ok?
    ensures var (edges, length) := DecodeChunk(nids, node, chunk, next, l).value;
      edges != [] && length == Sum(edges, TupleLen(l)) <= CHUNK_PAYLOAD_BYTES
  {
    hide DecodeTuples, Sum, TupleLen, FromLE;
    var count, length := Get32(chunk, 4), Get32(chunk, 8);
    DecodedTuplesLength(nids, node, chunk[16..16 + length], count, l);
  }

  // ----- Chains -----

  /** The entries of chunks `j` onwards of a chain, chunk by chunk. */
  function StoredParts(
    nids: seq<u64>, node: u32, arena: seq<bytes>, first: nat, count: nat, j: nat, l: Layout): seq<seq<Edge>>
    requires AllWide(arena, CHUNK_BYTES) && first + count <= |arena| && first + count <= NO_NEXT && j <= count
    decreases count - j
  {
    if j == count then []
    else
      var chunk := DecodeChunk(nids, node, arena[first + j], NextOf(first, count, j), l);
      if chunk.Err? then [] else [chunk.value.0] + StoredParts(nids, node, arena, first, count, j + 1, l)
  }

  /** A chain that decodes is divided into maximal chunks, and its total is what they use. */
  lemma {:induction false} ChainDivision(
    nids: seq<u64>, node: u32, arena: seq<bytes>, first: nat, count: nat, j: nat, previous: Option<nat>, l: Layout)
    requires AllWide(arena, CHUNK_BYTES) && first + count <= |arena| && first + count <= NO_NEXT && j <= count
    requires DecodeChain(nids, node, arena, first, count, j, previous, l).Ok?
    ensures var (edges, total) := DecodeChain(nids, node, arena, first, count, j, previous, l).value;
      var parts := StoredParts(nids, node, arena, first, count, j, l);
      && |parts| == count - j && ChunksAccepted(parts, TupleLen(l))
      && Flat(parts) == edges && total == Sum(edges, TupleLen(l))
      && (previous.Some? && parts != [] ==>
            parts[0] != [] && previous.value + TupleLen(l)(parts[0][0]) > CHUNK_PAYLOAD_BYTES)
    decreases count - j
  {
    hide DecodeChunk, TupleLen, Sum;
    if j == count {
      EmptySum(l);
    } else {
      DecodedChunkLength(nids, node, arena[first + j], NextOf(first, count, j), l);
      var (part, length) := DecodeChunk(nids, node, arena[first + j], NextOf(first, count, j), l).value;
      ChainDivision(nids, node, arena, first, count, j + 1, Some(length), l);
      var rest := StoredParts(nids, node, arena, first, count, j + 1, l);
      var parts := StoredParts(nids, node, arena, first, count, j, l);
      assert parts == [part] + rest && parts[1..] == rest;
      SumConcat(part, Flat(rest), TupleLen(l));
    }
  }

  /** What the arena stores for one record. */
  function RecordParts(nids: seq<u64>, ordinals: seq<u32>, arena: seq<bytes>, r: ChainRecord, l: Layout): seq<seq<Edge>>
    requires AllWide(arena, CHUNK_BYTES)
  {
    if r.row < |ordinals| && r.firstChunk + r.chunkCount <= |arena| && r.firstChunk + r.chunkCount <= NO_NEXT
    then StoredParts(nids, ordinals[r.row], arena, r.firstChunk, r.chunkCount, 0, l) else []
  }

  function RecordFor(records: seq<ChainRecord>, row: nat, d: Direction): Option<ChainRecord> {
    if records == [] then None
    else if records[0].row == row && records[0].direction == d then Some(records[0])
    else RecordFor(records[1..], row, d)
  }

  /** Looking up a row's chain finds the chunks its record points to, joined. */
  lemma {:induction false} ChainForRecord(
    nids: seq<u64>, ordinals: seq<u32>, arena: seq<bytes>, records: seq<ChainRecord>, l: Layout, row: nat, d: Direction)
    requires AllWide(arena, CHUNK_BYTES) && DecodeChains(nids, ordinals, arena, records, l).Ok?
    ensures var chain := ChainFor(DecodeChains(nids, ordinals, arena, records, l).value, row, d);
      match RecordFor(records, row, d) {
        case None => chain.None?
        case Some(r) =>
          var parts := RecordParts(nids, ordinals, arena, r, l);
          chain == Some(Flat(parts)) && ChunksAccepted(parts, TupleLen(l))
      }
    decreases |records|
  {
    hide DecodeChain, StoredParts, ChunksAccepted, Flat;
    if records != [] {
      var r := records[0];
      ChainDivision(nids, ordinals[r.row], arena, r.firstChunk, r.chunkCount, 0, None, l);
      ChainForRecord(nids, ordinals, arena, records[1..], l, row, d);
      var chains := DecodeChains(nids, ordinals, arena, records, l).value;
      assert chains[1..] == DecodeChains(nids, ordinals, arena, records[1..], l).value;
    }
  }

  // ----- Groups -----

  /** The sections of one namespace group, as the loader is given them. */
  datatype Stored = Stored(
    rowCount: nat, nodes: Group, outgoing: Columns, incoming: Option<Columns>, overflow: Option<Group>)

  function Load(nids: seq<u64>, f: Stored, l: Layout): Result<seq<Row>> {
    DecodeGroup(nids, f.rowCount, f.nodes, f.outgoing, f.incoming, f.overflow, l)
  }

  /** The inline part of every row of one direction. */
  function StoredInline(nids: seq<u64>, f: Stored, l: Layout, d: Direction): Result<seq<seq<Edge>>> {
    var ordinals := ReadOrdinals(nids, f.nodes, f.rowCount);
    if ordinals.Err? then Err
    else if d.Outgoing? then DecodeDirection(nids, ordinals.value, f.outgoing, l)
    else DecodeIncoming(nids, ordinals.value, f.incoming, l)
  }

  /** The chunks one row and direction own in the arena, chunk by chunk. */
  function StoredChunks(nids: seq<u64>, f: Stored, l: Layout, d: Direction, row: nat): seq<seq<Edge>> {
    var ordinals := ReadOrdinals(nids, f.nodes, f.rowCount);
    if ordinals.Err? || f.overflow.None? then []
    else
      var records := ReadDirectory(|ordinals.value|, f.overflow.value, f.incoming.Some?);
      if records.Err? || RecordFor(records.value, row, d).None? then []
      else RecordParts(nids, ordinals.value, Arena(f.overflow.value), RecordFor(records.value, row, d).value, l)
  }

  lemma {:induction false} DividedIsAccepted(
    inline: seq<Edge>, suffix: Option<seq<Edge>>, parts: seq<seq<Edge>>, l: Layout)
    requires RowDivided(inline, suffix, l) && ChunksAccepted(parts, TupleLen(l))
    requires suffix == (if suffix.Some? then Some(Flat(parts)) else None) && (suffix.None? ==> parts == [])
    ensures RowAccepted(inline, parts, TupleLen(l)) && ExpandRow(inline, suffix) == inline + Flat(parts)
  {
    hide Sum, TupleLen;
    AcceptedIsPack(parts, TupleLen(l));
    if suffix.None? {
      assert inline + Flat(parts) == inline;
    }
  }

  /** The chains behind the loaded rows of a group, by row and direction. */
  lemma {:induction false} LoadedChain(nids: seq<u64>, f: Stored, l: Layout, d: Direction, row: nat, chains: seq<Chain>)
    requires ReadOrdinals(nids, f.nodes, f.rowCount).Ok?
    requires var ordinals := ReadOrdinals(nids, f.nodes, f.rowCount).value;
      match f.overflow {
        case Some(frame) => DecodeOverflowGroup(nids, ordinals, frame, f.incoming.Some?, l) == Ok(chains)
        case None => chains == []
      }
    ensures var suffix, parts := ChainFor(chains, row, d), StoredChunks(nids, f, l, d, row);
      && suffix == (if suffix.Some? then Some(Flat(parts)) else None) && (suffix.None? ==> parts == [])
      && ChunksAccepted(parts, TupleLen(l))
  {
    hide DecodeChains, RecordParts, ReadOrdinals, ReadDirectory, ChunksAccepted, Arena;
    EmptyAccepted(l);
    if f.overflow.Some? {
      var ordinals := ReadOrdinals(nids, f.nodes, f.rowCount).value;
      var records := ReadDirectory(|ordinals|, f.overflow.value, f.incoming.Some?).value;
      ChainForRecord(nids, ordinals, Arena(f.overflow.value), records, l, row, d);
    }
  }

  lemma {:induction false} EmptyAccepted(l: Layout)
    ensures ChunksAccepted([], TupleLen(l))
  {
  }

  /** Loading a group reads the inline part of every row. */
  lemma {:induction false} LoadedInline(nids: seq<u64>, f: Stored, l: Layout, rows: seq<Row>, d: Direction)
    requires Load(nids, f, l) == Ok(rows)
    ensures StoredInline(nids, f, l, d).Ok? && |StoredInline(nids, f, l, d).value| == |rows|
  {
    hide ReadOrdinals, DecodeDirection, DecodeIncoming, DecodeOverflowGroup, RowsDivided;
  }

  /** The loader's tests are the acceptance test: the stored parts of every row of an accepted group pass it
      and join to the row. */
  lemma {:induction false} LoadedRowAccepted(nids: seq<u64>, f: Stored, l: Layout, rows: seq<Row>, d: Direction, i: nat)
    requires Load(nids, f, l) == Ok(rows) && i < |rows|
    ensures StoredInline(nids, f, l, d).Ok? && i < |StoredInline(nids, f, l, d).value|
    ensures var inline, parts := StoredInline(nids, f, l, d).value[i], StoredChunks(nids, f, l, d, i);
      RowAccepted(inline, parts, TupleLen(l)) && inline + Flat(parts) == Side(rows, d)[i]
  {
    hide ReadOrdinals, DecodeDirection, DecodeIncoming, DecodeOverflowGroup, RowDivided, ExpandRow, ChainFor,
      StoredChunks, RowAccepted;
    LoadedInline(nids, f, l, rows, d);
    var ordinals := ReadOrdinals(nids, f.nodes, f.rowCount).value;
    var chains := match f.overflow
      case Some(frame) => DecodeOverflowGroup(nids, ordinals, frame, f.incoming.Some?, l).value
      case None => [];
    LoadedChain(nids, f, l, d, i, chains);
    var inline := StoredInline(nids, f, l, d).value;
    assert RowDivided(inline[i], ChainFor(chains, i, d), l);
    DividedIsAccepted(inline[i], ChainFor(chains, i, d), StoredChunks(nids, f, l, d, i), l);
  }

  /** One stored form: whatever group the loader accepts, every row of it lies in the file exactly as the
      writer divides that row, inline part and chunks. */
  lemma {:induction false} LoadedRowsGreedy(nids: seq<u64>, f: Stored, l: Layout, rows: seq<Row>, d: Direction, i: nat)
    requires Load(nids, f, l) == Ok(rows) && i < |rows|
    ensures StoredInline(nids, f, l, d).Ok? && i < |StoredInline(nids, f, l, d).value|
    ensures var row := Side(rows, d)[i];
      && StoredInline(nids, f, l, d).value[i] == WrittenInline(row, TupleLen(l))
      && StoredChunks(nids, f, l, d, i) == WrittenChunks(row, TupleLen(l))
  {
    hide Load, StoredInline, StoredChunks, RowAccepted, WrittenInline, WrittenChunks;
    LoadedRowAccepted(nids, f, l, rows, d, i);
    var inline, parts := StoredInline(nids, f, l, d).value[i], StoredChunks(nids, f, l, d, i);
    forall x | x in inline + Flat(parts) ensures 0 < TupleLen(l)(x) <= CHUNK_PAYLOAD_BYTES {
      TupleLenBounds(l, x);
    }
    RowDivisionUnique(inline, parts, TupleLen(l));
  }

  /** Two accepted groups with the same rows divide every one of them in the same way. */
  lemma {:induction false} LoadedDivisionsAgree(
    nids: seq<u64>, f: Stored, g: Stored, l: Layout, rows: seq<Row>, d: Direction)
    requires Load(nids, f, l) == Ok(rows) && Load(nids, g, l) == Ok(rows)
    ensures StoredInline(nids, f, l, d) == StoredInline(nids, g, l, d)
    ensures forall i :: 0 <= i < |rows| ==> StoredChunks(nids, f, l, d, i) == StoredChunks(nids, g, l, d, i)
  {
    hide Load, StoredInline, StoredChunks, WrittenInline, WrittenChunks;
    LoadedInline(nids, f, l, rows, d);
    LoadedInline(nids, g, l, rows, d);
    var a, b := StoredInline(nids, f, l, d).value, StoredInline(nids, g, l, d).value;
    forall i | 0 <= i < |rows|
      ensures a[i] == b[i] && StoredChunks(nids, f, l, d, i) == StoredChunks(nids, g, l, d, i)
    {
      LoadedRowsGreedy(nids, f, l, rows, d, i);
      LoadedRowsGreedy(nids, g, l, rows, d, i);
    }
    assert a == b;
  }

  // ----- The bytes of the chunks -----

  /** No type stands twice in the remap table; the loader demands that it ascends. */
  predicate TypesDistinct(l: Layout) {
    l.remap.Some? ==> forall i, j :: 0 <= i < j < |l.remap.value| ==> l.remap.value[i] != l.remap.value[j]
  }

  lemma {:induction false} FirstIndex(types: seq<u32>, i: nat)
    requires i < |types| && forall j :: 0 <= j < i ==> types[j] != types[i]
    ensures IndexOf(types, types[i]) == Some(i)
  {
    if i > 0 {
      assert types[1..][i - 1] == types[i];
      assert forall j :: 0 <= j < i - 1 ==> types[1..][j] == types[j + 1];
      FirstIndex(types[1..], i - 1);
    }
  }

  lemma {:induction false} CodeOfType(l: Layout, code: nat)
    requires TypesDistinct(l) && TypeOfCode(l, code).Ok?
    ensures TypeCode(l, TypeOfCode(l, code).value) == Some(code)
  {
    if l.remap.Some? {
      FirstIndex(l.remap.value, code);
    }
  }

  /** The fields behind a neighbour are the only bytes that decode to them. */
  lemma {:induction false} TailOfDecoded(s: bytes, k: nat, e: Edge, l: Layout, code: nat)
    requires k + 8 + l.TypeWidth() + l.WeightWidth() <= |s| && e.weight.Some? == l.weighted
    requires e.edgeId == Get64(s, k) && code == FromLE(s[k + 8..k + 8 + l.TypeWidth()])
    requires l.weighted ==> e.weight.value == Get32(s, k + 8 + l.TypeWidth())
    ensures s[k..k + 8 + l.TypeWidth() + l.WeightWidth()] == TupleTail(e, l, code)
  {
    hide FromLE, LE;
    var mid := k + 8 + l.TypeWidth();
    LEOfFrom(s[k..k + 8]);
    LEOfFrom(s[k + 8..mid]);
    assert Put64(e.edgeId) == s[k..k + 8] && LE(code, l.TypeWidth()) == s[k + 8..mid];
    if l.weighted {
      LEOfFrom(s[mid..mid + 4]);
      assert Put32(e.weight.value) == s[mid..mid + 4];
    }
  }

  /** Canonical: a decoded tuple is the encoding of its entry. */
  lemma {:induction false} TupleOfDecoded(nids: seq<u64>, node: u32, s: bytes, l: Layout)
    requires TypesDistinct(l) && DecodeTuple(nids, node, s, l).Ok?
    ensures var (e, k) := DecodeTuple(nids, node, s, l).value;
      e.weight.Some? == l.weighted && TypeCode(l, e.typeId).Some? && s[..k] == Tuple(e, l)
  {
    hide DecodeTaggedNeighborPrefix, Encoding, FromLE, LE, TypeCode, TypeOfCode, ResolveNeighbor;
    EncodingOfDecoded(s);
    var (stored, k) := DecodeTaggedNeighborPrefix(s).value;
    var (e, end) := DecodeTuple(nids, node, s, l).value;
    var code := FromLE(s[k + 8..k + 8 + l.TypeWidth()]);
    CodeOfType(l, code);
    TailOfDecoded(s, k, e, l, code);
    assert s[..end] == s[..k] + s[k..end];
  }

  lemma {:induction false} TuplesOfDecoded(nids: seq<u64>, node: u32, s: bytes, count: nat, l: Layout)
    requires TypesDistinct(l) && DecodeTuples(nids, node, s, count, l).Ok?
    ensures var edges := DecodeTuples(nids, node, s, count, l).value;
      TuplesWritable(edges, l) && TuplesBytes(edges, l) == s
    decreases count
  {
    hide DecodeTuple, Tuple, TypeCode;
    if count > 0 {
      TupleOfDecoded(nids, node, s, l);
      var (e, k) := DecodeTuple(nids, node, s, l).value;
      TuplesOfDecoded(nids, node, s[k..], count - 1, l);
      var edges := DecodeTuples(nids, node, s, count, l).value;
      assert edges[1..] == DecodeTuples(nids, node, s[k..], count - 1, l).value;
      assert s == s[..k] + s[k..];
    }
  }

  /** Canonical: a chunk that decodes is, byte for byte, the chunk written for its entries. */
  lemma {:induction false} ChunkOfDecoded(nids: seq<u64>, node: u32, chunk: bytes, next: u32, l: Layout)
    requires TypesDistinct(l) && |chunk| == CHUNK_BYTES && DecodeChunk(nids, node, chunk, next, l).Ok?
    ensures var part := DecodeChunk(nids, node, chunk, next, l).value.0;
      PartFits(part, l) && chunk == ChunkBytes(next, part, l)
  {
    hide DecodeTuples, TuplesBytes, Sum, TupleLen, FromLE, LE, TuplesWritable;
    var count, length := Get32(chunk, 4), Get32(chunk, 8);
    var payload := chunk[16..16 + length];
    TuplesOfDecoded(nids, node, payload, count, l);
    DecodedChunkLength(nids, node, chunk, next, l);
    HeadOfDecoded(chunk, next, count, length);
    var rest := chunk[16 + length..];
    assert rest == Zeros(CHUNK_PAYLOAD_BYTES - length);
    assert chunk == chunk[..16] + payload + rest;
  }

  lemma {:induction false} HeadOfDecoded(chunk: bytes, next: u32, count: u32, length: u32)
    requires |chunk| >= 16 && Get32(chunk, 0) == next && Get32(chunk, 4) == count && Get32(chunk, 8) == length
    requires Get32(chunk, 12) == 0
    ensures chunk[..16] == ChunkHead(next, count, length)
  {
    hide FromLE, LE;
    LEOfFrom(chunk[0..4]);
    LEOfFrom(chunk[4..8]);
    LEOfFrom(chunk[8..12]);
    LEOfFrom(chunk[12..16]);
    assert chunk[..16] == chunk[0..4] + chunk[4..8] + chunk[8..12] + chunk[12..16];
  }

  /** The chunks a record points to are those written for the stored parts, links included. */
  lemma {:induction false} ChainBytes(
    nids: seq<u64>, node: u32, arena: seq<bytes>, first: nat, count: nat, j: nat, previous: Option<nat>, l: Layout)
    requires AllWide(arena, CHUNK_BYTES) && first + count <= |arena| && first + count <= NO_NEXT && j <= count
    requires TypesDistinct(l) && DecodeChain(nids, node, arena, first, count, j, previous, l).Ok?
    ensures var parts := StoredParts(nids, node, arena, first, count, j, l);
      |parts| == count - j && forall i :: 0 <= i < |parts| ==>
        PartFits(parts[i], l) && arena[first + j + i] == ChunkBytes(NextOf(first, count, j + i), parts[i], l)
    decreases count - j
  {
    hide DecodeChunk, TupleLen, PartFits, ChunkBytes;
    if j < count {
      ChunkOfDecoded(nids, node, arena[first + j], NextOf(first, count, j), l);
      var (part, length) := DecodeChunk(nids, node, arena[first + j], NextOf(first, count, j), l).value;
      ChainBytes(nids, node, arena, first, count, j + 1, Some(length), l);
      var rest := StoredParts(nids, node, arena, first, count, j + 1, l);
      var parts := StoredParts(nids, node, arena, first, count, j, l);
      assert parts == [part] + rest;
      forall i | 0 <= i < |parts|
        ensures PartFits(parts[i], l) && arena[first + j + i] == ChunkBytes(NextOf(first, count, j + i), parts[i], l)
      {
        if i > 0 {
          assert parts[i] == rest[i - 1];
        }
      }
    }
  }

  /** What a chunk holds after its header and before its padding. */
  function ChunkPayload(chunk: bytes): bytes
    requires |chunk| == CHUNK_BYTES
  {
    if Get32(chunk, 8) <= CHUNK_PAYLOAD_BYTES then chunk[16..16 + Get32(chunk, 8)] else []
  }

  /** The payload bytes of the chunks one row and direction own, in chain order. */
  function StoredPayloads(nids: seq<u64>, f: Stored, l: Layout, d: Direction, row: nat): seq<bytes> {
    var ordinals := ReadOrdinals(nids, f.nodes, f.rowCount);
    if ordinals.Err? || f.overflow.None? then []
    else
      var records, arena := ReadDirectory(|ordinals.value|, f.overflow.value, f.incoming.Some?),
        Arena(f.overflow.value);
      if records.Err? || RecordFor(records.value, row, d).None? then []
      else RecordPayloads(arena, RecordFor(records.value, row, d).value)
  }

  function RecordPayloads(arena: seq<bytes>, r: ChainRecord): (ps: seq<bytes>)
    requires AllWide(arena, CHUNK_BYTES)
    ensures r.firstChunk + r.chunkCount <= |arena| ==>
      && |ps| == r.chunkCount
      && forall i :: 0 <= i < |ps| ==> ps[i] == ChunkPayload(arena[r.firstChunk + i])
  {
    if r.firstChunk + r.chunkCount <= |arena|
    then seq(r.chunkCount, i requires 0 <= i < r.chunkCount => ChunkPayload(arena[r.firstChunk + i]))
    else []
  }

  lemma {:induction false} PayloadWritten(next: u32, part: seq<Edge>, l: Layout)
    requires PartFits(part, l)
    ensures ChunkPayload(ChunkBytes(next, part, l)) == TuplesBytes(part, l)
  {
    hide FromLE, LE, Sum, TuplesBytes, TypeCode;
    TuplesLength(part, l);
    var chunk, payload := ChunkBytes(next, part, l), TuplesBytes(part, l);
    HeadReads(chunk, next, |part|, |payload|);
  }

  predicate PayloadsAre(payloads: seq<bytes>, parts: seq<seq<Edge>>, l: Layout) {
    |payloads| == |parts| && forall i :: 0 <= i < |parts| ==>
      TuplesWritable(parts[i], l) && payloads[i] == TuplesBytes(parts[i], l)
  }

  lemma {:induction false} RecordPayloadsAre(
    nids: seq<u64>, ordinals: seq<u32>, arena: seq<bytes>, records: seq<ChainRecord>, l: Layout, r: ChainRecord)
    requires AllWide(arena, CHUNK_BYTES) && TypesDistinct(l) && r in records
    requires DecodeChains(nids, ordinals, arena, records, l).Ok?
    ensures PayloadsAre(RecordPayloads(arena, r), RecordParts(nids, ordinals, arena, r, l), l)
    decreases |records|
  {
    hide DecodeChain, StoredParts, TuplesBytes, TypeCode, ChunkBytes, ChunkPayload;
    if r == records[0] {
      ChainBytes(nids, ordinals[r.row], arena, r.firstChunk, r.chunkCount, 0, None, l);
      var parts := StoredParts(nids, ordinals[r.row], arena, r.firstChunk, r.chunkCount, 0, l);
      forall i | 0 <= i < |parts|
        ensures TuplesWritable(parts[i], l) && ChunkPayload(arena[r.firstChunk + i]) == TuplesBytes(parts[i], l)
      {
        PayloadWritten(NextOf(r.firstChunk, r.chunkCount, i), parts[i], l);
      }
    } else {
      RecordPayloadsAre(nids, ordinals, arena, records[1..], l, r);
    }
  }

  lemma {:induction false} RecordForIn(records: seq<ChainRecord>, row: nat, d: Direction)
    requires RecordFor(records, row, d).Some?
    ensures RecordFor(records, row, d).value in records
  {
    if !(records[0].row == row && records[0].direction == d) {
      RecordForIn(records[1..], row, d);
    }
  }

  /** The overflow bytes of every row of an accepted group are the tuples of the writer's chunks of that row. */
  lemma {:induction false} LoadedPayloads(nids: seq<u64>, f: Stored, l: Layout, rows: seq<Row>, d: Direction, i: nat)
    requires TypesDistinct(l) && Load(nids, f, l) == Ok(rows) && i < |rows|
    ensures PayloadsAre(StoredPayloads(nids, f, l, d, i), WrittenChunks(Side(rows, d)[i], TupleLen(l)), l)
  {
    hide ReadOrdinals, DecodeDirection, DecodeIncoming, RowsDivided, ReadDirectory, DecodeChains, RecordFor,
      RecordParts, RecordPayloads, PayloadsAre, WrittenChunks, Arena;
    LoadedRowsGreedy(nids, f, l, rows, d, i);
    var ordinals := ReadOrdinals(nids, f.nodes, f.rowCount).value;
    NoPayloads(l);
    if f.overflow.Some? {
      var records := ReadDirectory(|ordinals|, f.overflow.value, f.incoming.Some?).value;
      if RecordFor(records, i, d).Some? {
        RecordForIn(records, i, d);
        RecordPayloadsAre(nids, ordinals, Arena(f.overflow.value), records, l, RecordFor(records, i, d).value);
      }
    }
  }

  lemma {:induction false} NoPayloads(l: Layout)
    ensures PayloadsAre([], [], l)
  {
  }

  /** Two accepted groups with the same rows hold the same overflow bytes for every one of them. */
  lemma {:induction false} LoadedPayloadsAgree(
    nids: seq<u64>, f: Stored, g: Stored, l: Layout, rows: seq<Row>, d: Direction, i: nat)
    requires TypesDistinct(l) && Load(nids, f, l) == Ok(rows) && Load(nids, g, l) == Ok(rows) && i < |rows|
    ensures StoredPayloads(nids, f, l, d, i) == StoredPayloads(nids, g, l, d, i)
  {
    hide Load, StoredPayloads, WrittenChunks, TuplesBytes, TuplesWritable;
    LoadedPayloads(nids, f, l, rows, d, i);
    LoadedPayloads(nids, g, l, rows, d, i);
  }
}
