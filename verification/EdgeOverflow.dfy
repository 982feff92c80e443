/** The overflow group of one namespace group (`graph_edge.rs`): a directory of
    chain records, then an arena of 64 KiB chunks linked into chains. */
module EdgeOverflow {
  import opened Wrappers
  import opened Bytes
  import opened Ordering
  import opened GroupedSections
  import opened RowChunking
  import opened EdgeTuples

  const CHUNK_BYTES: nat := 65536
  const MAX_CHAIN_DEPTH: nat := 1024
  const NO_NEXT: u32 := 0xFFFF_FFFF

  datatype Direction = Outgoing | Incoming {
    function Code(): byte {
      if Outgoing? then 0 else 1
    }
  }

  datatype Chain = Chain(row: u32, direction: Direction, edges: seq<Edge>)

  function ChainKey(c: Chain): Key {
    [c.row, c.direction.Code()]
  }

  datatype ChainRecord = ChainRecord(row: u32, direction: Direction, firstChunk: u32, chunkCount: u32,
    totalEntries: u32, totalBytes: u32)

  function RecordKey(r: ChainRecord): Key {
    [r.row, r.direction.Code()]
  }

  // ----- Chunks -----

  predicate TuplesWritable(edges: seq<Edge>, l: Layout) {
    forall i :: 0 <= i < |edges| ==> edges[i].weight.Some? == l.weighted && TypeCode(l, edges[i].typeId).Some?
  }

  lemma {:induction false} TuplesLength(edges: seq<Edge>, l: Layout)
    requires TuplesWritable(edges, l)
    ensures |TuplesBytes(edges, l)| == Sum(edges, TupleLen(l))
    ensures Sum(edges, TupleLen(l)) >= 12 * |edges|
  {
    hide TypeCode, Tuple;
    if edges != [] {
      TuplesLength(edges[1..], l);
      TupleLenBounds(l, edges[0]);
    }
  }

  function ChunkHead(next: u32, count: u32, length: u32): (s: bytes)
    ensures |s| == 16
  {
    Put32(next) + Put32(count) + Put32(length) + Put32(0)
  }

  /** A part the writer can store in one chunk. */
  predicate PartFits(part: seq<Edge>, l: Layout) {
    TuplesWritable(part, l) && Sum(part, TupleLen(l)) <= CHUNK_PAYLOAD_BYTES
  }

  function ChunkBytes(next: u32, part: seq<Edge>, l: Layout): (s: bytes)
    requires PartFits(part, l)
    ensures |s| == CHUNK_BYTES
  {
    TuplesLength(part, l);
    var payload := TuplesBytes(part, l);
    ChunkHead(next, |part|, |payload|) + payload + Zeros(CHUNK_PAYLOAD_BYTES - |payload|)
  }

  function DecodeChunk(
    nids: seq<u64>, node: u32, chunk: bytes, expectedNext: u32, l: Layout): (r: Result<(seq<Edge>, nat)>)
    requires |chunk| == CHUNK_BYTES
    ensures r.Ok? ==> r.value.0 != []
  {
    var count, length := Get32(chunk, 4), Get32(chunk, 8);
    :- Need(Get32(chunk, 0) == expectedNext && count != 0 && 0 < length <= CHUNK_PAYLOAD_BYTES
      && Get32(chunk, 12) == 0);
    :- Need(count <= length / 12 && AllZero(chunk[16 + length..]));
    var edges :- DecodeTuples(nids, node, chunk[16..16 + length], count, l);
    Ok((edges, length))
  }

  lemma {:induction false} HeadReads(s: bytes, next: u32, count: u32, length: u32)
    requires ChunkHead(next, count, length) <= s
    ensures Get32(s, 0) == next && Get32(s, 4) == count && Get32(s, 8) == length && Get32(s, 12) == 0
  {
    hide FromLE;
    var head := ChunkHead(next, count, length);
    var zero := Put32(0);
    assert head == Put32(next) + Put32(count) + Put32(length) + zero;
    assert s[..16] == head;
    assert s[0..4] == Put32(next);
    assert s[4..8] == Put32(count);
    assert s[8..12] == Put32(length);
    assert s[12..16] == head[12..] == zero;
  }

  /** A stored chunk decodes to its entries and its byte length. */
  lemma {:induction false} ChunkReads(nids: seq<u64>, node: u32, next: u32, part: seq<Edge>, l: Layout, chunk: bytes)
    requires l.Valid() && AllValid(nids, node, part, l) && PartFits(part, l) && part != []
    requires chunk == ChunkBytes(next, part, l)
    ensures DecodeChunk(nids, node, chunk, next, l) == Ok((part, Sum(part, TupleLen(l))))
  {
    hide FromLE, EdgeValid, DecodeTuples, TuplesBytes, Sum, TypeCode;
    TuplesLength(part, l);
    var payload := TuplesBytes(part, l);
    var head := ChunkHead(next, |part|, |payload|);
    HeadReads(chunk, next, |part|, |payload|);
    assert chunk[16..16 + |payload|] == payload;
    assert chunk[16 + |payload|..] == Zeros(CHUNK_PAYLOAD_BYTES - |payload|);
    TuplesRead(nids, node, part, l);
  }

  // ----- Chains -----

  /** The link stored in chunk `j` of a chain of `count` chunks starting at `first`. */
  function NextOf(first: nat, count: nat, j: nat): (r: u32)
    requires first + count <= NO_NEXT && j < count
  {
    if j + 1 == count then NO_NEXT else first + j + 1
  }

  /** Chunks `j` onwards of a chain. */
  function ChainChunks(parts: seq<seq<Edge>>, first: nat, j: nat, l: Layout): (r: seq<bytes>)
    requires first + |parts| <= NO_NEXT && j <= |parts|
    requires forall i :: 0 <= i < |parts| ==> PartFits(parts[i], l)
    ensures |r| == |parts| - j
    ensures forall i :: 0 <= i < |r| ==> r[i] == ChunkBytes(NextOf(first, |parts|, j + i), parts[j + i], l)
  {
    seq(|parts| - j, i requires 0 <= i < |parts| - j => ChunkBytes(NextOf(first, |parts|, j + i), parts[j + i], l))
  }

  /** Walk a chain from its chunk `j`, insisting that no chunk could have taken the next one's first
      entry; the entries and the bytes they used. */
  function DecodeChain(
    nids: seq<u64>, node: u32, arena: seq<bytes>, first: nat, count: nat, j: nat, previous: Option<nat>,
    l: Layout): (r: Result<(seq<Edge>, nat)>)
    requires AllWide(arena, CHUNK_BYTES) && first + count <= |arena| && first + count <= NO_NEXT && j <= count
    decreases count - j
  {
    if j == count then Ok(([], 0))
    else
      var (edges, length) :- DecodeChunk(nids, node, arena[first + j], NextOf(first, count, j), l);
      :- Need(previous.Some? ==> previous.value + TupleLen(l)(edges[0]) > CHUNK_PAYLOAD_BYTES);
      var (rest, total) :- DecodeChain(nids, node, arena, first, count, j + 1, Some(length), l);
      Ok((edges + rest, length + total))
  }

  predicate PartsStored(nids: seq<u64>, node: u32, arena: seq<bytes>, parts: seq<seq<Edge>>, first: nat, l: Layout) {
    && first + |parts| <= |arena| && first + |parts| <= NO_NEXT
    && forall i :: 0 <= i < |parts| ==> PartStored(nids, node, arena, parts, first, l, i)
  }

  predicate PartStored(
    nids: seq<u64>, node: u32, arena: seq<bytes>, parts: seq<seq<Edge>>, first: nat, l: Layout, i: nat)
    requires first + |parts| <= |arena| && first + |parts| <= NO_NEXT && i < |parts|
  {
    && parts[i] != [] && PartFits(parts[i], l) && AllValid(nids, node, parts[i], l)
    && arena[first + i] == ChunkBytes(NextOf(first, |parts|, i), parts[i], l)
  }

  /** The previous length the walk carries when it reaches chunk `j`. */
  function PreviousLength(parts: seq<seq<Edge>>, j: nat, l: Layout): Option<nat>
    requires j <= |parts|
  {
    if j == 0 then None else Some(Sum(parts[j - 1], TupleLen(l)))
  }

  lemma {:induction false} ChainReads(
    nids: seq<u64>, node: u32, arena: seq<bytes>, parts: seq<seq<Edge>>, first: nat, j: nat, l: Layout)
    requires l.Valid() && AllWide(arena, CHUNK_BYTES) && PartsStored(nids, node, arena, parts, first, l) && j <= |parts|
    requires ChunksAccepted(parts, TupleLen(l))
    ensures DecodeChain(nids, node, arena, first, |parts|, j, PreviousLength(parts, j, l), l)
      == Ok((Flat(parts[j..]), Sum(Flat(parts[j..]), TupleLen(l))))
    decreases |parts| - j
  {
    hide DecodeChunk, PartFits, AllValid, Sum, ChunkBytes, ChunksAccepted, TupleLen;
    if j == |parts| {
      assert parts[j..] == [];
      EmptySum(l);
    } else {
      assert PartStored(nids, node, arena, parts, first, l, j);
      ChunkReads(nids, node, NextOf(first, |parts|, j), parts[j], l, arena[first + j]);
      if j > 0 {
        AcceptedGreedy(parts, TupleLen(l), j);
      }
      ChainReads(nids, node, arena, parts, first, j + 1, l);
      assert parts[j..] == [parts[j]] + parts[j + 1..];
      SumConcat(parts[j], Flat(parts[j + 1..]), TupleLen(l));
    }
  }

  lemma {:induction false} EmptySum(l: Layout)
    ensures Sum([], TupleLen(l)) == 0
  {
  }

  lemma {:induction false} AcceptedGreedy<T>(parts: seq<seq<T>>, len: T -> nat, j: nat)
    requires ChunksAccepted(parts, len) && 0 < j < |parts|
    ensures parts[j] != [] && Sum(parts[j - 1], len) + len(parts[j][0]) > CHUNK_PAYLOAD_BYTES
    decreases j
  {
    if j > 1 {
      AcceptedGreedy(parts[1..], len, j - 1);
    } else {
      assert parts[1..][0] == parts[1];
    }
  }

  // ----- The writer -----

  function PartsOf(c: Chain, l: Layout): seq<seq<Edge>> {
    Pack(c.edges, TupleLen(l))
  }

  predicate ChainFits(c: Chain, l: Layout) {
    && 0 < |c.edges| < U32_LIMIT && TuplesWritable(c.edges, l)
    && 0 < |PartsOf(c, l)| <= MAX_CHAIN_DEPTH
    && Sum(c.edges, TupleLen(l)) < U32_LIMIT
  }

  function ChunksBefore(chains: seq<Chain>, i: nat, l: Layout): nat
    requires i <= |chains|
  {
    if i == 0 then 0 else ChunksBefore(chains, i - 1, l) + |PartsOf(chains[i - 1], l)|
  }

  lemma {:induction false} ChunksBeforeMonotone(chains: seq<Chain>, i: nat, j: nat, l: Layout)
    requires i <= j <= |chains|
    ensures ChunksBefore(chains, i, l) <= ChunksBefore(chains, j, l)
    decreases j - i
  {
    if i < j {
      ChunksBeforeMonotone(chains, i, j - 1, l);
    }
  }

  /** Every field of the directory fits, and chunk numbers fit 32 bits. */
  predicate GroupFits(chains: seq<Chain>, l: Layout) {
    && |chains| < U32_LIMIT
    && ChunksBefore(chains, |chains|, l) <= NO_NEXT
    && forall i :: 0 <= i < |chains| ==> ChainFits(chains[i], l)
  }

  function RecordOf(chains: seq<Chain>, i: nat, l: Layout): ChainRecord
    requires GroupFits(chains, l) && i < |chains|
  {
    ChunksBeforeMonotone(chains, i, |chains|, l);
    var c := chains[i];
    ChainRecord(c.row, c.direction, ChunksBefore(chains, i, l), |PartsOf(c, l)|, |c.edges|, Sum(c.edges, TupleLen(l)))
  }

  function RecordBytes(r: ChainRecord): (s: bytes)
    ensures |s| == 32
  {
    Put32(r.row) + [r.direction.Code(), 0] + Put16(0) + Put32(r.firstChunk) + Put32(r.chunkCount)
    + Put32(r.totalEntries) + Put32(r.totalBytes) + Put64(0)
  }

  function Records(chains: seq<Chain>, l: Layout): (r: seq<bytes>)
    requires GroupFits(chains, l)
    ensures |r| == |chains| && AllWide(r, 32)
    ensures forall i :: 0 <= i < |r| ==> r[i] == RecordBytes(RecordOf(chains, i, l))
  {
    seq(|chains|, i requires 0 <= i < |chains| => RecordBytes(RecordOf(chains, i, l)))
  }

  /** The parts of a chain that fits are the greedy ones: non-empty, chunk-sized, maximal. */
  lemma {:induction false} PartsFit(c: Chain, l: Layout)
    requires ChainFits(c, l)
    ensures ChunksAccepted(PartsOf(c, l), TupleLen(l)) && Flat(PartsOf(c, l)) == c.edges
    ensures forall i :: 0 <= i < |PartsOf(c, l)| ==> PartsOf(c, l)[i] != [] && PartFits(PartsOf(c, l)[i], l)
  {
    hide TypeCode;
    var parts := PartsOf(c, l);
    forall x | x in c.edges ensures 0 < TupleLen(l)(x) <= CHUNK_PAYLOAD_BYTES {
      TupleLenBounds(l, x);
    }
    PackAccepted(c.edges, TupleLen(l));
    forall i | 0 <= i < |parts| ensures parts[i] != [] && PartFits(parts[i], l) {
      AcceptedPart(parts, TupleLen(l), i);
      FlatSlice(parts, i);
      PartWritable(c.edges, l, Start(parts, i), Start(parts, i + 1));
    }
  }

  lemma {:induction false} PartWritable(edges: seq<Edge>, l: Layout, from: nat, to: nat)
    requires TuplesWritable(edges, l) && from <= to <= |edges|
    ensures TuplesWritable(edges[from..to], l)
  {
  }

  lemma {:induction false} AcceptedPart<T>(parts: seq<seq<T>>, len: T -> nat, i: nat)
    requires ChunksAccepted(parts, len) && i < |parts|
    ensures parts[i] != [] && Sum(parts[i], len) <= CHUNK_PAYLOAD_BYTES
    decreases i
  {
    if i > 0 {
      AcceptedPart(parts[1..], len, i - 1);
    }
  }

  /** The chunks of every chain, chain after chain. */
  function ChunkLists(chains: seq<Chain>, l: Layout): (r: seq<seq<bytes>>)
    requires GroupFits(chains, l)
    ensures |r| == |chains|
    ensures forall i :: 0 <= i < |r| ==> r[i] == ChunksOfChain(chains, i, l)
  {
    seq(|chains|, i requires 0 <= i < |chains| => ChunksOfChain(chains, i, l))
  }

  function ChunksOfChain(chains: seq<Chain>, i: nat, l: Layout): (r: seq<bytes>)
    requires GroupFits(chains, l) && i < |chains|
    ensures |r| == |PartsOf(chains[i], l)|
  {
    ChunksBeforeMonotone(chains, i + 1, |chains|, l);
    PartsFit(chains[i], l);
    ChainChunks(PartsOf(chains[i], l), ChunksBefore(chains, i, l), 0, l)
  }

  /** Where the chunk arena begins, so that its chunks start on chunk boundaries after a frame header. */
  function ArenaOffset(directoryEnd: nat): (r: nat)
    ensures directoryEnd <= r && (r + 16) % CHUNK_BYTES == 0
  {
    AlignUp(16 + directoryEnd, CHUNK_BYTES) - 16
  }

  function GroupBytes(chains: seq<Chain>, l: Layout): bytes
    requires GroupFits(chains, l)
  {
    var directoryEnd := 8 + |chains| * 32;
    Put32(|chains|) + Put32(0) + Flat(Records(chains, l)) + Zeros(ArenaOffset(directoryEnd) - directoryEnd)
    + Flat(Flat(ChunkLists(chains, l)))
  }

  function EncodeOverflowGroup(chains: seq<Chain>, l: Layout): Result<bytes> {
    if chains == [] then Ok(Zeros(8))
    else if GroupFits(chains, l) then Ok(GroupBytes(chains, l))
    else Err
  }

  // ----- The loader -----

  function ParseRecord(raw: bytes, csc: bool): Result<ChainRecord>
    requires |raw| == 32
  {
    var direction :- if raw[4] == 0 then Ok(Outgoing) else if raw[4] == 1 && csc then Ok(Incoming) else Err;
    :- Need(raw[5] == 0 && Get16(raw, 6) == 0 && Get64(raw, 24) == 0);
    Ok(ChainRecord(Get32(raw, 0), direction, Get32(raw, 8), Get32(raw, 12), Get32(raw, 16), Get32(raw, 20)))
  }

  predicate RecordAcceptable(r: ChainRecord, rowCount: nat, expectedFirst: nat) {
    && r.row < rowCount
    && 0 < r.chunkCount <= MAX_CHAIN_DEPTH
    && r.totalEntries != 0 && r.totalBytes != 0
    && r.firstChunk == expectedFirst
    && r.totalBytes <= r.chunkCount * 65520
    && r.totalEntries <= r.totalBytes / 12
    && expectedFirst + r.chunkCount < U32_LIMIT
  }

  function ParseRecords(raws: seq<bytes>, csc: bool, rowCount: nat, expectedFirst: nat): (r: Result<seq<ChainRecord>>)
    requires AllWide(raws, 32)
    ensures r.Ok? ==> |r.value| == |raws|
  {
    if raws == [] then Ok([])
    else
      var record :- ParseRecord(raws[0], csc);
      :- Need(RecordAcceptable(record, rowCount, expectedFirst));
      var rest :- ParseRecords(raws[1..], csc, rowCount, expectedFirst + record.chunkCount);
      :- Need(rest != [] ==> Less(RecordKey(record), RecordKey(rest[0])));
      Ok([record] + rest)
  }

  function ChunkTotal(records: seq<ChainRecord>): nat {
    if records == [] then 0 else records[0].chunkCount + ChunkTotal(records[1..])
  }

  function DecodeChains(
    nids: seq<u64>, ordinals: seq<u32>, arena: seq<bytes>, records: seq<ChainRecord>,
    l: Layout): (r: Result<seq<Chain>>)
    requires AllWide(arena, CHUNK_BYTES)
    ensures r.Ok? ==> |r.value| == |records|
  {
    if records == [] then Ok([])
    else
      var record := records[0];
      :- Need(record.row < |ordinals| && record.firstChunk + record.chunkCount <= |arena|
        && record.firstChunk + record.chunkCount <= NO_NEXT);
      var (edges, total) :- DecodeChain(nids, ordinals[record.row], arena, record.firstChunk, record.chunkCount, 0,
        None, l);
      :- Need(|edges| == record.totalEntries && total == record.totalBytes);
      var rest :- DecodeChains(nids, ordinals, arena, records[1..], l);
      Ok([Chain(record.row, record.direction, edges)] + rest)
  }

  /** The chain records of a group, once its header, its padding and its size have been checked. */
  function ReadDirectory(rowCount: nat, frame: Group, csc: bool): Result<seq<ChainRecord>> {
    var s := frame.payload;
    :- Need(8 <= |s|);
    var count := Get32(s, 0);
    :- Need(Get32(s, 4) == 0 && frame.elemCount == count && count <= rowCount * (if csc then 2 else 1));
    if count == 0 then
      if |s| == 8 then Ok([]) else Err
    else
      var directoryEnd := 8 + count * 32;
      var arenaOffset := ArenaOffset(directoryEnd);
      :- Need(directoryEnd <= |s|);
      var records :- ParseRecords(Rows(s[8..directoryEnd], 32), csc, rowCount, 0);
      :- Need(arenaOffset <= |s| && AllZero(s[directoryEnd..arenaOffset]));
      :- Need(arenaOffset + ChunkTotal(records) * 65536 == |s|);
      Ok(records)
  }

  /** The chunks behind the directory. */
  function Arena(frame: Group): (r: seq<bytes>)
    ensures AllWide(r, CHUNK_BYTES)
  {
    var s := frame.payload;
    if |s| < 8 || |s| < ArenaOffset(8 + Get32(s, 0) * 32) then []
    else Rows(s[ArenaOffset(8 + Get32(s, 0) * 32)..], CHUNK_BYTES)
  }

  /** All chains of a group, in directory order. */
  function DecodeOverflowGroup(
    nids: seq<u64>, ordinals: seq<u32>, frame: Group, csc: bool, l: Layout): Result<seq<Chain>> {
    var records :- ReadDirectory(|ordinals|, frame, csc);
    DecodeChains(nids, ordinals, Arena(frame), records, l)
  }

  // ----- The loader undoes the writer -----

  predicate ChainValid(nids: seq<u64>, ordinals: seq<u32>, c: Chain, csc: bool, l: Layout) {
    && c.row < |ordinals|
    && AllValid(nids, ordinals[c.row], c.edges, l)
    && (c.direction.Incoming? ==> csc)
  }

  lemma {:induction false} RecordFields(r: ChainRecord, s: bytes)
    requires s == RecordBytes(r)
    ensures s[4] == r.direction.Code() && s[5] == 0 && Get16(s, 6) == 0 && Get64(s, 24) == 0
    ensures Get32(s, 0) == r.row && Get32(s, 8) == r.firstChunk && Get32(s, 12) == r.chunkCount
    ensures Get32(s, 16) == r.totalEntries && Get32(s, 20) == r.totalBytes
  {
    hide FromLE, LE;
    var z16, z64 := Put16(0), Put64(0);
    var front := Put32(r.row) + [r.direction.Code(), 0] + z16;
    var back := Put32(r.totalEntries) + Put32(r.totalBytes) + z64;
    assert s == front + (Put32(r.firstChunk) + Put32(r.chunkCount)) + back;
    assert s[..8] == front && s[16..] == back;
    assert s[0..4] == front[0..4] == Put32(r.row);
    assert s[6..8] == front[6..8] == z16;
    assert s[8..12] == Put32(r.firstChunk);
    assert s[12..16] == Put32(r.chunkCount);
    assert s[16..20] == back[0..4] == Put32(r.totalEntries);
    assert s[20..24] == back[4..8] == Put32(r.totalBytes);
    assert s[24..32] == back[8..16] == z64;
  }

  lemma {:induction false} RecordReads(r: ChainRecord, csc: bool)
    requires r.direction.Incoming? ==> csc
    ensures ParseRecord(RecordBytes(r), csc) == Ok(r)
  {
    hide RecordBytes, Get16, Get32, Get64;
    RecordFields(r, RecordBytes(r));
  }

  lemma {:induction false} PartsBytes(parts: seq<seq<Edge>>, l: Layout)
    requires forall i :: 0 <= i < |parts| ==> Sum(parts[i], TupleLen(l)) <= CHUNK_PAYLOAD_BYTES
    ensures Sum(Flat(parts), TupleLen(l)) <= |parts| * 65520
  {
    if parts != [] {
      PartsBytes(parts[1..], l);
      SumConcat(parts[0], Flat(parts[1..]), TupleLen(l));
    }
  }

  /** The structural bounds of a record hold of what the writer stores. */
  lemma {:induction false} RecordAccepted(chains: seq<Chain>, i: nat, l: Layout, rowCount: nat)
    requires GroupFits(chains, l) && i < |chains| && chains[i].row < rowCount
    ensures RecordAcceptable(RecordOf(chains, i, l), rowCount, ChunksBefore(chains, i, l))
  {
    hide TypeCode, TupleLen, PartFits, ChunksAccepted;
    var c := chains[i];
    PartsFit(c, l);
    var parts := PartsOf(c, l);
    forall k | 0 <= k < |parts| ensures Sum(parts[k], TupleLen(l)) <= CHUNK_PAYLOAD_BYTES {
      AcceptedPart(parts, TupleLen(l), k);
    }
    PartsBytes(parts, l);
    TuplesLength(c.edges, l);
    ChunksBeforeMonotone(chains, i + 1, |chains|, l);
  }

  function RecordList(chains: seq<Chain>, l: Layout): (r: seq<ChainRecord>)
    requires GroupFits(chains, l)
    ensures |r| == |chains|
    ensures forall i :: 0 <= i < |r| ==> r[i] == RecordOf(chains, i, l)
  {
    seq(|chains|, i requires 0 <= i < |chains| => RecordOf(chains, i, l))
  }

  lemma {:induction false} RecordsRead(chains: seq<Chain>, l: Layout, csc: bool, rowCount: nat, i: nat)
    requires GroupFits(chains, l) && i <= |chains| && Ascending(chains, ChainKey)
    requires forall k :: 0 <= k < |chains| ==> chains[k].row < rowCount && (chains[k].direction.Incoming? ==> csc)
    ensures ParseRecords(Records(chains, l)[i..], csc, rowCount, ChunksBefore(chains, i, l))
      == Ok(RecordList(chains, l)[i..])
    decreases |chains| - i
  {
    hide ParseRecord, RecordAcceptable, RecordBytes, PartsOf, ChainFits, Ascending;
    var raws, list := Records(chains, l), RecordList(chains, l);
    if i == |chains| {
      assert raws[i..] == [] && list[i..] == [];
    } else {
      RecordReads(list[i], csc);
      RecordAccepted(chains, i, l, rowCount);
      RecordsRead(chains, l, csc, rowCount, i + 1);
      assert raws[i..][0] == raws[i] && raws[i..][1..] == raws[i + 1..];
      assert list[i..] == [list[i]] + list[i + 1..];
      if i + 1 < |chains| {
        AscendingPairs(chains, ChainKey, i, i + 1);
        assert list[i + 1..][0] == list[i + 1];
      }
    }
  }

  lemma {:induction false} RecordsTotal(chains: seq<Chain>, l: Layout, i: nat)
    requires GroupFits(chains, l) && i <= |chains|
    ensures ChunksBefore(chains, i, l) + ChunkTotal(RecordList(chains, l)[i..]) == ChunksBefore(chains, |chains|, l)
    decreases |chains| - i
  {
    hide PartsOf, ChainFits;
    var list := RecordList(chains, l);
    if i == |chains| {
      assert list[i..] == [];
    } else {
      RecordsTotal(chains, l, i + 1);
      assert list[i..][0] == list[i] && list[i..][1..] == list[i + 1..];
    }
  }

  lemma {:induction false} ListStart(chains: seq<Chain>, l: Layout, i: nat)
    requires GroupFits(chains, l) && i <= |chains|
    ensures Start(ChunkLists(chains, l), i) == ChunksBefore(chains, i, l)
  {
    hide ChunksOfChain, PartsOf, ChainFits, Flat;
    var lists := ChunkLists(chains, l);
    if i == 0 {
      StartTotal(lists);
    } else {
      ListStart(chains, l, i - 1);
      FlatSlice(lists, i - 1);
    }
  }

  /** The arena the writer lays down holds every chain where its record says. */
  lemma {:induction false} ArenaHolds(
    chains: seq<Chain>, l: Layout, i: nat, nids: seq<u64>, ordinals: seq<u32>, csc: bool)
    requires GroupFits(chains, l) && i < |chains| && ChainValid(nids, ordinals, chains[i], csc, l)
    ensures var arena := Flat(ChunkLists(chains, l));
      PartsStored(nids, ordinals[chains[i].row], arena, PartsOf(chains[i], l), ChunksBefore(chains, i, l), l)
  {
    hide ChunkBytes, Flat, EdgeValid, TypeCode, Pack, PartFits, ChainFits, ChunksAccepted;
    var lists := ChunkLists(chains, l);
    var arena := Flat(lists);
    var first, parts := ChunksBefore(chains, i, l), PartsOf(chains[i], l);
    var node := ordinals[chains[i].row];
    ChunksBeforeMonotone(chains, i + 1, |chains|, l);
    PartsFit(chains[i], l);
    ListStart(chains, l, i);
    FlatSlice(lists, i);
    forall k | 0 <= k < |parts| ensures PartStored(nids, node, arena, parts, first, l, k) {
      assert arena[first + k] == arena[first..first + |lists[i]|][k] == lists[i][k];
      FlatSlice(parts, k);
      assert parts[k] == chains[i].edges[Start(parts, k)..Start(parts, k + 1)];
    }
  }

  lemma {:induction false} ArenaWide(chains: seq<Chain>, l: Layout)
    requires GroupFits(chains, l)
    ensures var arena := Flat(ChunkLists(chains, l));
      AllWide(arena, CHUNK_BYTES) && |arena| == ChunksBefore(chains, |chains|, l)
  {
    hide ChunkBytes, PartsOf, ChainFits;
    var lists := ChunkLists(chains, l);
    ListStart(chains, l, |chains|);
    StartTotal(lists);
    forall i | 0 <= i < |lists| ensures AllWide(lists[i], CHUNK_BYTES) {
      ChainWide(chains, i, l);
    }
    FlatAllWide(lists, CHUNK_BYTES);
  }

  lemma {:induction false} ChainWide(chains: seq<Chain>, i: nat, l: Layout)
    requires GroupFits(chains, l) && i < |chains|
    ensures AllWide(ChunksOfChain(chains, i, l), CHUNK_BYTES)
  {
    hide ChunkBytes, PartsOf, ChainFits;
    ChunksBeforeMonotone(chains, i + 1, |chains|, l);
    PartsFit(chains[i], l);
  }

  lemma {:induction false} FlatAllWide(lists: seq<seq<bytes>>, width: nat)
    requires forall i :: 0 <= i < |lists| ==> AllWide(lists[i], width)
    ensures AllWide(Flat(lists), width)
  {
    if lists != [] {
      FlatAllWide(lists[1..], width);
    }
  }

  lemma {:induction false} ChainsRead(
    nids: seq<u64>, ordinals: seq<u32>, chains: seq<Chain>, csc: bool, l: Layout, arena: seq<bytes>, i: nat)
    requires l.Valid() && GroupFits(chains, l) && i <= |chains|
    requires forall k :: 0 <= k < |chains| ==> ChainValid(nids, ordinals, chains[k], csc, l)
    requires arena == Flat(ChunkLists(chains, l)) && AllWide(arena, CHUNK_BYTES)
    ensures DecodeChains(nids, ordinals, arena, RecordList(chains, l)[i..], l) == Ok(chains[i..])
    decreases |chains| - i
  {
    hide DecodeChain, PartsOf, AllWide, Flat, AllValid, ChainFits;
    var list := RecordList(chains, l);
    if i == |chains| {
      assert list[i..] == [] && chains[i..] == [];
    } else {
      ChainRead(nids, ordinals, chains, csc, l, arena, i);
      ChainsRead(nids, ordinals, chains, csc, l, arena, i + 1);
      assert list[i..][0] == list[i] && list[i..][1..] == list[i + 1..];
      assert chains[i..] == [chains[i]] + chains[i + 1..];
    }
  }

  lemma {:induction false} ChainRead(
    nids: seq<u64>, ordinals: seq<u32>, chains: seq<Chain>, csc: bool, l: Layout, arena: seq<bytes>, i: nat)
    requires l.Valid() && GroupFits(chains, l) && i < |chains|
    requires ChainValid(nids, ordinals, chains[i], csc, l)
    requires arena == Flat(ChunkLists(chains, l)) && AllWide(arena, CHUNK_BYTES)
    ensures var r := RecordOf(chains, i, l);
      && r.firstChunk + r.chunkCount <= |arena| && r.firstChunk + r.chunkCount <= NO_NEXT
      && DecodeChain(nids, ordinals[r.row], arena, r.firstChunk, r.chunkCount, 0, None, l)
        == Ok((chains[i].edges, r.totalBytes))
  {
    hide DecodeChain, AllWide, Flat, AllValid, Pack, PartFits, ChunkBytes, ChunksAccepted;
    ArenaHolds(chains, l, i, nids, ordinals, csc);
    var parts := PartsOf(chains[i], l);
    PartsFit(chains[i], l);
    ChainReads(nids, ordinals[chains[i].row], arena, parts, ChunksBefore(chains, i, l), 0, l);
    assert parts[0..] == parts;
  }

  lemma {:induction false} GroupSlices(count: u32, table: bytes, fill: bytes, arena: bytes, s: bytes)
    requires s == Put32(count) + Put32(0) + table + fill + arena
    ensures |s| == 8 + |table| + |fill| + |arena| && Get32(s, 0) == count && Get32(s, 4) == 0
    ensures s[8..8 + |table|] == table
    ensures s[8 + |table|..8 + |table| + |fill|] == fill
    ensures s[8 + |table| + |fill|..] == arena
  {
    hide FromLE, LE;
    var zero := Put32(0);
    assert s[0..4] == Put32(count);
    assert s[4..8] == zero;
  }

  /** Header, records, zero fill and arena, as the loader reads them. */
  predicate GroupHolds(
    s: bytes, count: nat, directoryEnd: nat, arenaOffset: nat, records: seq<bytes>, arena: seq<bytes>) {
    && 8 <= directoryEnd <= arenaOffset <= |s|
    && Get32(s, 0) == count && Get32(s, 4) == 0
    && Rows(s[8..directoryEnd], 32) == records
    && AllZero(s[directoryEnd..arenaOffset])
    && arenaOffset + |arena| * 65536 == |s|
    && Rows(s[arenaOffset..], CHUNK_BYTES) == arena
  }

  lemma {:induction false} GroupReads(chains: seq<Chain>, l: Layout, s: bytes)
    requires GroupFits(chains, l) && s == GroupBytes(chains, l)
    ensures GroupHolds(s, |chains|, 8 + |chains| * 32, ArenaOffset(8 + |chains| * 32), Records(chains, l),
      Flat(ChunkLists(chains, l)))
  {
    hide FromLE, Get32, AllWide, Flat, ChunkLists, RecordBytes, RecordOf, Rows, ChunksBefore, ChainFits, AlignUp;
    var table, arena := Flat(Records(chains, l)), Flat(ChunkLists(chains, l));
    var directoryEnd := 8 + |chains| * 32;
    var arenaOffset := ArenaOffset(directoryEnd);
    ArenaWide(chains, l);
    FlatWide(Records(chains, l), 32);
    FlatWide(arena, CHUNK_BYTES);
    assert |table| == |chains| * 32 && |Flat(arena)| == |arena| * 65536;
    GroupSlices(|chains|, table, Zeros(arenaOffset - directoryEnd), Flat(arena), s);
    RowsOfFlat(Records(chains, l), 32);
    RowsOfFlat(arena, CHUNK_BYTES);
  }

  /** The directory and the arena of a written group. */
  lemma {:induction false} DirectoryReads(ordinals: seq<u32>, chains: seq<Chain>, csc: bool, l: Layout, s: bytes)
    requires GroupFits(chains, l) && chains != [] && s == GroupBytes(chains, l) && Ascending(chains, ChainKey)
    requires forall k :: 0 <= k < |chains| ==> chains[k].row < |ordinals| && (chains[k].direction.Incoming? ==> csc)
    requires |chains| <= |ordinals| * (if csc then 2 else 1)
    ensures ReadDirectory(|ordinals|, Group(|chains|, s), csc) == Ok(RecordList(chains, l))
    ensures Arena(Group(|chains|, s)) == Flat(ChunkLists(chains, l))
  {
    hide FromLE, GroupBytes, ParseRecords, Rows, ChainFits, ChunksBefore, RecordOf, Ascending, ChunkTotal, Get32,
      ArenaOffset, AllZero;
    GroupReads(chains, l, s);
    ArenaWide(chains, l);
    RecordsRead(chains, l, csc, |ordinals|, 0);
    RecordsTotal(chains, l, 0);
    NoChunksBefore(chains, l);
    var list := RecordList(chains, l);
    assert Records(chains, l)[0..] == Records(chains, l) && list[0..] == list;
  }

  lemma {:induction false} NoDirectory(rowCount: nat, csc: bool)
    ensures ReadDirectory(rowCount, Group(0, Zeros(8)), csc) == Ok([])
  {
    hide FromLE;
    var s := Zeros(8);
    assert s[0..4] == Zeros(4) && s[4..8] == Zeros(4);
    ZerosRead();
  }

  /** Decoding a written overflow group returns its chains, in order, entry for entry. */
  lemma {:induction false} OverflowRoundTrip(
    nids: seq<u64>, ordinals: seq<u32>, chains: seq<Chain>, csc: bool, l: Layout, s: bytes)
    requires l.Valid() && EncodeOverflowGroup(chains, l) == Ok(s)
    requires Ascending(chains, ChainKey)
    requires forall k :: 0 <= k < |chains| ==> ChainValid(nids, ordinals, chains[k], csc, l)
    requires |chains| <= |ordinals| * (if csc then 2 else 1)
    ensures |chains| < U64_LIMIT
    ensures DecodeOverflowGroup(nids, ordinals, Group(|chains|, s), csc, l) == Ok(chains)
  {
    hide GroupBytes, ReadDirectory, Arena, ChainFits, ChunksBefore, RecordOf, Ascending, AllValid, ChunksOfChain;
    if chains == [] {
      NoDirectory(|ordinals|, csc);
    } else {
      DirectoryReads(ordinals, chains, csc, l, s);
      var list := RecordList(chains, l);
      ChainsRead(nids, ordinals, chains, csc, l, Flat(ChunkLists(chains, l)), 0);
      assert chains[0..] == chains && list[0..] == list;
    }
  }

  lemma {:induction false} NoChunksBefore(chains: seq<Chain>, l: Layout)
    ensures ChunksBefore(chains, 0, l) == 0
  {
  }

  lemma {:induction false} ZerosRead()
    ensures FromLE(Zeros(4)) == 0
  {
    assert Zeros(4)[1..] == Zeros(3) && Zeros(3)[1..] == Zeros(2) && Zeros(2)[1..] == Zeros(1) && Zeros(1)[1..] == [];
    assert FromLE(Zeros(1)) == 0;
    assert FromLE(Zeros(2)) == 0;
    assert FromLE(Zeros(3)) == 0;
  }
}
