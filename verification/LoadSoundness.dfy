/** Whatever `open` in `graph_edge.rs` accepts satisfies everything the builder
    establishes: the loader checks what it reads and does not trust the writer. */
module LoadSoundness {
  import opened Wrappers
  import opened Bytes
  import opened Ordering
  import opened TaggedNeighbors
  import opened GroupedSections
  import opened Namespaces
  import opened RowChunking
  import opened EdgeTuples
  import opened EdgeColumns
  import opened EdgeOverflow
  import opened EdgeGroups
  import opened AdjacencyBuilder
  import opened AdjacencyFile
  import Artifact

  // ----- Entries -----

  lemma {:induction false} FieldsValid(
    nids: seq<u64>, node: u32, stored: Neighbor, edgeId: u64, code: nat, bits: Option<u32>, l: Layout)
    requires DecodeFields(nids, node, stored, edgeId, code, bits, l).Ok?
    requires bits.Some? == l.weighted && (bits.Some? ==> FiniteF32(bits.value))
    ensures EdgeValid(nids, node, DecodeFields(nids, node, stored, edgeId, code, bits, l).value, l)
  {
  }

  lemma {:induction false} TupleValid(nids: seq<u64>, node: u32, s: bytes, l: Layout)
    requires DecodeTuple(nids, node, s, l).Ok?
    ensures EdgeValid(nids, node, DecodeTuple(nids, node, s, l).value.0, l)
  {
    hide EdgeValid, DecodeFields, FromLE, DecodeTaggedNeighborPrefix;
    var (stored, k) := DecodeTaggedNeighborPrefix(s).value;
    var end := k + 8 + l.TypeWidth() + l.WeightWidth();
    var bits := if l.weighted then Some(Get32(s, end - 4)) else None;
    FieldsValid(nids, node, stored, Get64(s, k), FromLE(s[k + 8..k + 8 + l.TypeWidth()]), bits, l);
  }

  lemma {:induction false} TuplesValid(nids: seq<u64>, node: u32, s: bytes, count: nat, l: Layout)
    requires DecodeTuples(nids, node, s, count, l).Ok?
    ensures AllValid(nids, node, DecodeTuples(nids, node, s, count, l).value, l)
    decreases count
  {
    hide EdgeValid, DecodeTuple;
    if count > 0 {
      TupleValid(nids, node, s, l);
      var (_, consumed) := DecodeTuple(nids, node, s, l).value;
      TuplesValid(nids, node, s[consumed..], count - 1, l);
    }
  }

  lemma {:induction false} ValidConcat(nids: seq<u64>, node: u32, a: seq<Edge>, b: seq<Edge>, l: Layout)
    requires AllValid(nids, node, a, l) && AllValid(nids, node, b, l)
    ensures AllValid(nids, node, a + b, l)
  {
    hide EdgeValid;
  }

  lemma {:induction false} ChunkValid(nids: seq<u64>, node: u32, chunk: bytes, next: u32, l: Layout)
    requires |chunk| == CHUNK_BYTES && DecodeChunk(nids, node, chunk, next, l).Ok?
    ensures AllValid(nids, node, DecodeChunk(nids, node, chunk, next, l).value.0, l)
  {
    hide AllValid, DecodeTuples, FromLE;
    TuplesValid(nids, node, chunk[16..16 + Get32(chunk, 8)], Get32(chunk, 4), l);
  }

  lemma {:induction false} ChainEntriesValid(
    nids: seq<u64>, node: u32, arena: seq<bytes>, first: nat, count: nat, j: nat, previous: Option<nat>, l: Layout)
    requires AllWide(arena, CHUNK_BYTES) && first + count <= |arena| && first + count <= NO_NEXT && j <= count
    requires DecodeChain(nids, node, arena, first, count, j, previous, l).Ok?
    ensures AllValid(nids, node, DecodeChain(nids, node, arena, first, count, j, previous, l).value.0, l)
    decreases count - j
  {
    hide AllValid, DecodeChunk, TupleLen;
    if j < count {
      var next := NextOf(first, count, j);
      ChunkValid(nids, node, arena[first + j], next, l);
      var (edges, length) := DecodeChunk(nids, node, arena[first + j], next, l).value;
      ChainEntriesValid(nids, node, arena, first, count, j + 1, Some(length), l);
      ValidConcat(nids, node, edges, DecodeChain(nids, node, arena, first, count, j + 1, Some(length), l).value.0, l);
    } else {
      NoneValid(nids, node, l);
    }
  }

  lemma {:induction false} NoneValid(nids: seq<u64>, node: u32, l: Layout)
    ensures AllValid(nids, node, [], l)
  {
  }

  /** Chains belong to rows of the group, hold valid entries, and are incoming only where there is a reverse side. */
  predicate ChainsSound(nids: seq<u64>, ordinals: seq<u32>, chains: seq<Chain>, csc: bool, l: Layout) {
    forall k :: 0 <= k < |chains| ==> ChainValid(nids, ordinals, chains[k], csc, l)
  }

  predicate RecordsSided(records: seq<ChainRecord>, csc: bool) {
    forall k :: 0 <= k < |records| ==> records[k].direction.Incoming? ==> csc
  }

  lemma {:induction false} RecordsParsed(raws: seq<bytes>, csc: bool, rowCount: nat, expectedFirst: nat)
    requires AllWide(raws, 32) && ParseRecords(raws, csc, rowCount, expectedFirst).Ok?
    ensures RecordsSided(ParseRecords(raws, csc, rowCount, expectedFirst).value, csc)
    decreases |raws|
  {
    hide Get16, Get32, Get64, RecordAcceptable;
    if raws != [] {
      var record := ParseRecord(raws[0], csc).value;
      RecordsParsed(raws[1..], csc, rowCount, expectedFirst + record.chunkCount);
    }
  }

  lemma {:induction false} ChainsDecoded(
    nids: seq<u64>, ordinals: seq<u32>, arena: seq<bytes>, records: seq<ChainRecord>, csc: bool, l: Layout)
    requires AllWide(arena, CHUNK_BYTES) && RecordsSided(records, csc)
    requires DecodeChains(nids, ordinals, arena, records, l).Ok?
    ensures ChainsSound(nids, ordinals, DecodeChains(nids, ordinals, arena, records, l).value, csc, l)
  {
    hide AllValid, DecodeChain;
    if records != [] {
      var r := records[0];
      ChainEntriesValid(nids, ordinals[r.row], arena, r.firstChunk, r.chunkCount, 0, None, l);
      ChainsDecoded(nids, ordinals, arena, records[1..], csc, l);
    }
  }

  lemma {:induction false} OverflowSound(nids: seq<u64>, ordinals: seq<u32>, frame: Group, csc: bool, l: Layout)
    requires DecodeOverflowGroup(nids, ordinals, frame, csc, l).Ok?
    ensures ChainsSound(nids, ordinals, DecodeOverflowGroup(nids, ordinals, frame, csc, l).value, csc, l)
  {
    hide ChainsSound, ParseRecords, DecodeChains, Arena, Get32, Rows, RecordsSided;
    var records := ReadDirectory(|ordinals|, frame, csc).value;
    var s := frame.payload;
    var count: nat := Get32(s, 0);
    if count == 0 {
      NoRecords(csc);
    } else {
      RecordsParsed(Rows(s[8..8 + count * 32], 32), csc, |ordinals|, 0);
    }
    ChainsDecoded(nids, ordinals, Arena(frame), records, csc, l);
  }

  lemma {:induction false} NoRecords(csc: bool)
    ensures RecordsSided([], csc)
  {
  }

  // ----- Inline columns -----

  /** Weights are there exactly when the layout has them, and finite. */
  predicate WeightsSound(c: Columns, l: Layout) {
    c.weights.Some? == l.weighted && (c.weights.Some? ==> AllFinite(c.weights.value.payload))
  }

  predicate ArraysSound(a: Arrays, l: Layout) {
    && a.weights.Some? == l.weighted
    && (a.weights.Some? ==> forall k :: 0 <= k < |a.weights.value| ==> FiniteF32(a.weights.value[k]))
  }

  lemma {:induction false} ArraysRead(c: Columns, n: nat, l: Layout)
    requires WeightsSound(c, l) && ReadArrays(c, n, l).Ok?
    ensures ArraysSound(ReadArrays(c, n, l).value, l)
  {
    hide Words, DecodeTaggedNeighbors;
  }

  lemma {:induction false} SpanValid(nids: seq<u64>, node: u32, a: Arrays, l: Layout, start: nat, end: nat)
    requires a.Parallel() && ArraysSound(a, l) && start <= end <= |a.neighbors|
    requires DecodeSpan(nids, node, a, l, start, end).Ok?
    ensures AllValid(nids, node, DecodeSpan(nids, node, a, l, start, end).value, l)
    decreases end - start
  {
    hide EdgeValid, DecodeFields;
    if start < end {
      FieldsValid(nids, node, a.neighbors[start], a.edgeIds[start], a.codes[start],
        if a.weights.Some? then Some(a.weights.value[start]) else None, l);
      SpanValid(nids, node, a, l, start + 1, end);
    }
  }

  predicate InlineSound(nids: seq<u64>, ordinals: seq<u32>, rows: seq<seq<Edge>>, l: Layout) {
    |rows| == |ordinals| && forall i :: 0 <= i < |rows| ==> AllValid(nids, ordinals[i], rows[i], l)
  }

  lemma {:induction false} RowsDecoded(
    nids: seq<u64>, ordinals: seq<u32>, offsets: seq<nat>, a: Arrays, l: Layout, i: nat)
    requires a.Parallel() && ArraysSound(a, l) && |offsets| == |ordinals| + 1 && i <= |ordinals|
    requires DecodeRows(nids, ordinals, offsets, a, l, i).Ok?
    ensures InlineSound(nids, ordinals[i..], DecodeRows(nids, ordinals, offsets, a, l, i).value, l)
    decreases |ordinals| - i
  {
    hide AllValid, DecodeSpan, RowSorted, ArraysSound;
    if i < |ordinals| {
      SpanValid(nids, ordinals[i], a, l, offsets[i], offsets[i + 1]);
      RowsDecoded(nids, ordinals, offsets, a, l, i + 1);
      assert ordinals[i..][1..] == ordinals[i + 1..];
      InlineCons(nids, ordinals[i..], DecodeSpan(nids, ordinals[i], a, l, offsets[i], offsets[i + 1]).value,
        DecodeRows(nids, ordinals, offsets, a, l, i + 1).value, l);
    }
  }

  lemma {:induction false} InlineCons(
    nids: seq<u64>, ordinals: seq<u32>, row: seq<Edge>, rest: seq<seq<Edge>>, l: Layout)
    requires ordinals != [] && AllValid(nids, ordinals[0], row, l) && InlineSound(nids, ordinals[1..], rest, l)
    ensures InlineSound(nids, ordinals, [row] + rest, l)
  {
    hide AllValid;
    var rows := [row] + rest;
    forall i | 0 <= i < |rows| ensures AllValid(nids, ordinals[i], rows[i], l) {
      assert i > 0 ==> rows[i] == rest[i - 1] && ordinals[i] == ordinals[1..][i - 1];
    }
  }

  lemma {:induction false} DirectionSound(nids: seq<u64>, ordinals: seq<u32>, c: Columns, l: Layout)
    requires WeightsSound(c, l) && DecodeDirection(nids, ordinals, c, l).Ok?
    ensures InlineSound(nids, ordinals, DecodeDirection(nids, ordinals, c, l).value, l)
  {
    hide WeightsSound, InlineSound, DecodeRows, ReadArrays, ArraysSound, Words;
    var offsets := Words(c.offsets.payload, 8);
    var n := offsets[|ordinals|];
    ArraysRead(c, n, l);
    RowsDecoded(nids, ordinals, offsets, ReadArrays(c, n, l).value, l, 0);
    assert ordinals[0..] == ordinals;
  }

  // ----- Groups -----

  lemma {:induction false} SuffixSound(
    nids: seq<u64>, ordinals: seq<u32>, chains: seq<Chain>, csc: bool, l: Layout, row: nat, d: Direction)
    requires ChainsSound(nids, ordinals, chains, csc, l) && ChainFor(chains, row, d).Some?
    ensures row < |ordinals| && AllValid(nids, ordinals[row], ChainFor(chains, row, d).value, l)
    ensures d.Incoming? ==> csc
  {
    hide AllValid;
    if !(chains[0].row == row && chains[0].direction == d) {
      assert forall k :: 0 <= k < |chains[1..]| ==> chains[1..][k] == chains[k + 1];
      SuffixSound(nids, ordinals, chains[1..], csc, l, row, d);
    } else {
      assert ChainValid(nids, ordinals, chains[0], csc, l);
    }
  }

  /** A row put together from its inline part and its chain is valid. */
  lemma {:induction false} ExpandedValid(
    nids: seq<u64>, ordinals: seq<u32>, inline: seq<seq<Edge>>, chains: seq<Chain>, csc: bool, d: Direction, l: Layout,
    i: nat)
    requires InlineSound(nids, ordinals, inline, l) && ChainsSound(nids, ordinals, chains, csc, l)
    requires RowsDivided(inline, chains, d, l) && i < |inline|
    ensures RowValid(nids, ordinals[i], Expand(inline, chains, d)[i], l)
  {
    hide AllValid, ChainsSound, Sum, RowSorted;
    var suffix := ChainFor(chains, i, d);
    assert RowDivided(inline[i], suffix, l);
    if suffix.Some? {
      SuffixSound(nids, ordinals, chains, csc, l, i, d);
      ValidConcat(nids, ordinals[i], inline[i], suffix.value, l);
    }
  }

  lemma {:induction false} NoIncoming(nids: seq<u64>, ordinals: seq<u32>, chains: seq<Chain>, l: Layout, i: nat)
    requires ChainsSound(nids, ordinals, chains, false, l)
    ensures ChainFor(chains, i, Incoming).None?
  {
    hide ChainsSound;
    if ChainFor(chains, i, Incoming).Some? {
      SuffixSound(nids, ordinals, chains, false, l, i, Incoming);
    }
  }

  predicate StoredSound(outgoing: Columns, incoming: Option<Columns>, l: Layout) {
    WeightsSound(outgoing, l) && (incoming.Some? ==> WeightsSound(incoming.value, l))
  }

  /** The parts a group was decoded into. */
  lemma {:induction false} GroupParts(
    nids: seq<u64>, rowCount: nat, nodes: Group, outgoing: Columns, incoming: Option<Columns>, overflow: Option<Group>,
    l: Layout) returns (ordinals: seq<u32>, out: seq<seq<Edge>>, inc: seq<seq<Edge>>, chains: seq<Chain>)
    requires DecodeGroup(nids, rowCount, nodes, outgoing, incoming, overflow, l).Ok?
      && StoredSound(outgoing, incoming, l)
    ensures OrdinalsValid(nids, ordinals) && |ordinals| == rowCount
    ensures InlineSound(nids, ordinals, out, l) && InlineSound(nids, ordinals, inc, l)
    ensures ChainsSound(nids, ordinals, chains, incoming.Some?, l)
    ensures incoming.None? ==> forall i :: 0 <= i < |inc| ==> inc[i] == []
    ensures RowsDivided(out, chains, Outgoing, l) && RowsDivided(inc, chains, Incoming, l)
    ensures DecodeGroup(nids, rowCount, nodes, outgoing, incoming, overflow, l) ==
      Ok(Zip(ordinals, Expand(out, chains, Outgoing), Expand(inc, chains, Incoming)))
  {
    hide DecodeDirection, DecodeOverflowGroup, RowsDivided, InlineSound, ChainsSound, WeightsSound, OrdinalsValid,
      Expand, Words;
    ordinals := ReadOrdinals(nids, nodes, rowCount).value;
    out := DecodeDirection(nids, ordinals, outgoing, l).value;
    inc := DecodeIncoming(nids, ordinals, incoming, l).value;
    chains := match overflow
      case Some(frame) => DecodeOverflowGroup(nids, ordinals, frame, incoming.Some?, l).value
      case None => [];
    DirectionSound(nids, ordinals, outgoing, l);
    if incoming.Some? {
      DirectionSound(nids, ordinals, incoming.value, l);
    } else {
      EmptyInline(nids, ordinals, inc, l);
    }
    if overflow.Some? {
      OverflowSound(nids, ordinals, overflow.value, incoming.Some?, l);
    } else {
      NoChains(nids, ordinals, incoming.Some?, l);
    }
  }

  lemma {:induction false} EmptyInline(nids: seq<u64>, ordinals: seq<u32>, rows: seq<seq<Edge>>, l: Layout)
    requires |rows| == |ordinals| && forall i :: 0 <= i < |rows| ==> rows[i] == []
    ensures InlineSound(nids, ordinals, rows, l)
  {
  }

  lemma {:induction false} NoChains(nids: seq<u64>, ordinals: seq<u32>, csc: bool, l: Layout)
    ensures ChainsSound(nids, ordinals, [], csc, l)
  {
  }

  /** Rows of a group that decodes are as the builder makes them. */
  lemma {:induction false} GroupSound(
    nids: seq<u64>, rowCount: nat, nodes: Group, outgoing: Columns, incoming: Option<Columns>, overflow: Option<Group>,
    l: Layout)
    requires DecodeGroup(nids, rowCount, nodes, outgoing, incoming, overflow, l).Ok?
      && StoredSound(outgoing, incoming, l)
    ensures var rows := DecodeGroup(nids, rowCount, nodes, outgoing, incoming, overflow, l).value;
      |rows| == rowCount && RowsBuilt(nids, rows, incoming.Some?, l)
  {
    hide DecodeGroup, InlineSound, ChainsSound, RowsDivided, RowValid, OrdinalsValid, StoredSound;
    var rows := DecodeGroup(nids, rowCount, nodes, outgoing, incoming, overflow, l).value;
    var ordinals, out, inc, chains := GroupParts(nids, rowCount, nodes, outgoing, incoming, overflow, l);
    InlineLength(nids, ordinals, out, l);
    InlineLength(nids, ordinals, inc, l);
    forall i | 0 <= i < |rows|
      ensures RowValid(nids, rows[i].node, rows[i].outgoing, l) && RowValid(nids, rows[i].node, rows[i].incoming, l)
      ensures incoming.None? ==> rows[i].incoming == []
    {
      ExpandedValid(nids, ordinals, out, chains, incoming.Some?, Outgoing, l, i);
      ExpandedValid(nids, ordinals, inc, chains, incoming.Some?, Incoming, l, i);
      if incoming.None? {
        NoIncoming(nids, ordinals, chains, l, i);
      }
    }
    assert Ordinals(rows) == ordinals;
  }

  lemma {:induction false} InlineLength(nids: seq<u64>, ordinals: seq<u32>, rows: seq<seq<Edge>>, l: Layout)
    requires InlineSound(nids, ordinals, rows, l)
    ensures |rows| == |ordinals|
  {
  }

  // ----- Sections -----

  /** A frame on a chunk boundary whose payload has the width it should, and finite numbers where these are floats. */
  predicate FrameValid(section: bytes, width: Width, f: Frame) {
    && 16 <= f.offset && (f.offset - 16) % CHUNK == 0 && f.offset + f.length <= |section|
    && GroupValid(width, Group(f.elemCount, section[f.offset..f.offset + f.length]))
  }

  predicate FramesValid(section: bytes, width: Width, frames: seq<Frame>) {
    forall i :: 0 <= i < |frames| ==> FrameValid(section, width, frames[i])
  }

  lemma {:induction false} FrameOpened(
    section: bytes, width: Width, directoryEnd: nat, offset: nat, next: nat, last: bool)
    requires OpenFrame(section, width, directoryEnd, offset, next, last).Ok?
    ensures FrameValid(section, width, OpenFrame(section, width, directoryEnd, offset, next, last).value)
  {
    hide Get64, AllFinite, AllZero;
  }

  lemma {:induction false} FramesOpened(section: bytes, width: Width, directoryEnd: nat, offsets: seq<nat>, i: nat)
    requires i < |offsets| && OpenFrames(section, width, directoryEnd, offsets, i).Ok?
    ensures FramesValid(section, width, OpenFrames(section, width, directoryEnd, offsets, i).value)
    decreases |offsets| - i
  {
    hide OpenFrame, FrameValid;
    if i + 1 < |offsets| {
      FrameOpened(section, width, directoryEnd, offsets[i], offsets[i + 1], i + 2 == |offsets|);
      FramesOpened(section, width, directoryEnd, offsets, i + 1);
    }
  }

  lemma {:induction false} GroupsRead(section: bytes, width: Width, frames: seq<Frame>)
    requires FramesValid(section, width, frames) && ReadGroups(section, frames).Ok?
    ensures forall i :: 0 <= i < |frames| ==> GroupValid(width, ReadGroups(section, frames).value[i])
  {
    hide GroupValid;
    if frames != [] {
      assert FrameValid(section, width, frames[0]);
      assert FramesValid(section, width, frames[1..]) by {
        assert forall i :: 0 <= i < |frames[1..]| ==> frames[1..][i] == frames[i + 1];
      }
      GroupsRead(section, width, frames[1..]);
    }
  }

  /** Every group of a section that loads has a payload of the width it should. */
  lemma {:induction false} LoadedValid(section: bytes, offset: nat, elemCount: nat, count: nat, width: Width)
    requires LoadGroups(section, offset, elemCount, count, width).Ok?
    ensures forall i :: 0 <= i < count ==>
      GroupValid(width, LoadGroups(section, offset, elemCount, count, width).value[i])
  {
    hide GroupValid, OpenFrames, Words, Get32, Get64, FramesValid, ReadGroups, AllZero;
    var frames := OpenGroupedSection(section, offset, elemCount, count, width).value;
    var directoryEnd := DirectoryEnd(count);
    if count > 0 {
      FramesOpened(section, width, directoryEnd, Words(section[GROUP_HEADER_BYTES..directoryEnd], 8), 0);
    } else {
      NoFrames(section, width);
    }
    GroupsRead(section, width, frames);
  }

  lemma {:induction false} NoFrames(section: bytes, width: Width)
    ensures FramesValid(section, width, [])
  {
  }

  predicate ColumnsSound(cs: seq<Columns>, l: Layout) {
    forall i :: 0 <= i < |cs| ==> WeightsSound(cs[i], l)
  }

  lemma {:induction false} DirectionLoaded(a: Artifact.CheckedArtifact, base: u32, count: nat, l: Layout)
    requires base <= 100 && LoadDirection(a, base, count, l).Ok?
    ensures ColumnsSound(LoadDirection(a, base, count, l).value, l)
  {
    hide LoadGroups, AllFinite, Artifact.ReadSection, Artifact.Find;
    if l.weighted {
      var entry := Artifact.Find(a.entries, base + 4).value;
      LoadedValid(Artifact.ReadSection(a, base + 4).value, entry.offset, entry.elemCount, count, WidthF32);
    }
  }

  predicate OpenedSound(o: Opened, csc: bool, l: Layout) {
    && o.incoming.Some? == csc
    && ColumnsSound(o.outgoing, l) && (csc ==> ColumnsSound(o.incoming.value, l))
  }

  lemma {:induction false} ColumnsLoaded(
    a: Artifact.CheckedArtifact, namespaces: seq<NamespaceRows>, csc: bool, overflow: bool, l: Layout)
    requires LoadColumns(a, namespaces, csc, overflow, l).Ok?
    ensures OpenedSound(LoadColumns(a, namespaces, csc, overflow, l).value, csc, l)
  {
    hide LoadSection, LoadDirection, ColumnsSound, Total;
    DirectionLoaded(a, OUT_BASE, |namespaces|, l);
    if csc {
      DirectionLoaded(a, IN_BASE, |namespaces|, l);
    }
  }

  // ----- The file -----

  lemma {:induction false} GroupAt(nids: seq<u64>, o: Opened, csc: bool, l: Layout, i: nat)
    requires o.Aligned() && i < |o.namespaces| && OpenedSound(o, csc, l) && DecodeAt(nids, o, l, i).Ok?
    ensures var g := DecodeAt(nids, o, l, i).value;
      && g.namespace == o.namespaces[i].namespace
      && |g.rows| == o.namespaces[i].rowCount && RowsBuilt(nids, g.rows, csc, l)
  {
    hide DecodeGroup, WeightsSound, RowsBuilt;
    GroupSound(nids, o.namespaces[i].rowCount, o.nodes[i], o.outgoing[i],
      if o.incoming.Some? then Some(o.incoming.value[i]) else None,
      if o.overflow.Some? then Some(o.overflow.value[i]) else None, l);
  }

  predicate GroupMatches(nids: seq<u64>, g: NamespaceGroup, n: NamespaceRows, csc: bool, l: Layout) {
    g.namespace == n.namespace && |g.rows| == n.rowCount && RowsBuilt(nids, g.rows, csc, l)
  }

  lemma {:induction false} GroupsSound(nids: seq<u64>, o: Opened, csc: bool, l: Layout, i: nat)
    requires o.Aligned() && i <= |o.namespaces| && OpenedSound(o, csc, l) && DecodeGroups(nids, o, l, i).Ok?
    ensures var groups := DecodeGroups(nids, o, l, i).value;
      forall k :: 0 <= k < |groups| ==> GroupMatches(nids, groups[k], o.namespaces[i + k], csc, l)
    decreases |o.namespaces| - i
  {
    hide DecodeAt, RowsBuilt, OpenedSound;
    if i < |o.namespaces| {
      GroupAt(nids, o, csc, l, i);
      GroupsSound(nids, o, csc, l, i + 1);
      var rest, groups := DecodeGroups(nids, o, l, i + 1).value, DecodeGroups(nids, o, l, i).value;
      forall k | 0 <= k < |groups| ensures GroupMatches(nids, groups[k], o.namespaces[i + k], csc, l) {
        if k > 0 {
          assert groups[k] == rest[k - 1];
          assert GroupMatches(nids, rest[k - 1], o.namespaces[i + 1 + (k - 1)], csc, l);
        }
      }
    }
  }

  lemma {:induction false} RecordNamed(
    record: bytes, strings: bytes, utf8: bytes -> bool, nameOffset: nat, rowStart: nat)
    requires |record| == RECORD_BYTES && DecodeRecord(record, strings, utf8, nameOffset, rowStart).Ok?
    ensures var n := DecodeRecord(record, strings, utf8, nameOffset, rowStart).value.namespace;
      n.Tenant? ==> n.name != [] && utf8(n.name)
  {
    hide Get16, Get32;
  }

  lemma {:induction false} RecordsNamed(
    records: seq<bytes>, strings: bytes, utf8: bytes -> bool, nameOffset: nat, rowStart: nat)
    requires AllWide(records, RECORD_BYTES) && DecodeRecords(records, strings, utf8, nameOffset, rowStart).Ok?
    ensures NamesValid(DecodeRecords(records, strings, utf8, nameOffset, rowStart).value, utf8)
    decreases |records|
  {
    hide DecodeRecord;
    if records != [] {
      var item := DecodeRecord(records[0], strings, utf8, nameOffset, rowStart).value;
      RecordNamed(records[0], strings, utf8, nameOffset, rowStart);
      RecordsNamed(records[1..], strings, utf8, nameOffset + |NameOf(item.namespace)|, rowStart + item.rowCount);
    }
  }

  lemma {:induction false} NamespacesSound(a: Artifact.CheckedArtifact, utf8: bytes -> bool)
    requires LoadNamespaces(a, utf8).Ok?
    ensures var items := LoadNamespaces(a, utf8).value;
      && InOrder(items) && NamesValid(items, utf8)
      && forall i :: 0 <= i < |items| ==> items[i].rowCount != 0
  {
    hide Artifact.ReadSection, Artifact.Find, DecodeRecords, InOrder, NamesValid, Rows, Get32, Get64;
    var s := Artifact.ReadSection(a, NAMESPACE_INDEX).value;
    var count: nat := Get32(s, 0);
    var stringStart := HEADER_BYTES + count * 24;
    RecordsNamed(Rows(s[HEADER_BYTES..stringStart], RECORD_BYTES), s[stringStart..], utf8, 0, 0);
  }

  lemma {:induction false} GroupsAscend(groups: seq<NamespaceGroup>, items: seq<NamespaceRows>)
    requires |groups| == |items| && forall i :: 0 <= i < |groups| ==> groups[i].namespace == items[i].namespace
    requires Ascending(items, (x: NamespaceRows) => NamespaceKey(x.namespace))
    ensures Ascending(groups, GroupKey)
  {
    if |groups| > 1 {
      GroupsAscend(groups[1..], items[1..]);
    }
  }

  // ----- The remap -----

  lemma {:induction false} SameTypes(a: seq<u32>, b: seq<u32>)
    requires TypesAscending(a) && TypesAscending(b) && forall t :: t in a <==> t in b
    ensures a == b
    decreases |a|
  {
    assert b != [] ==> b[0] in b;
    if a != [] {
      assert a[0] in b && b != [] && b[0] in a;
      HeadLeast(a, b[0]);
      HeadLeast(b, a[0]);
      forall t ensures t in a[1..] <==> t in b[1..] {
        TailHas(a, t);
        TailHas(b, t);
      }
      SameTypes(a[1..], b[1..]);
      assert a == [a[0]] + a[1..] && b == [b[0]] + b[1..];
    }
  }

  lemma {:induction false} HeadLeast(types: seq<u32>, t: u32)
    requires TypesAscending(types) && t in types
    ensures types[0] <= t
  {
    var i :| 0 <= i < |types| && types[i] == t;
    if i > 0 {
      TypesClimb(types, i);
    }
  }

  lemma {:induction false} TailHas(types: seq<u32>, t: u32)
    requires TypesAscending(types) && types != []
    ensures t in types[1..] <==> t in types && t != types[0]
  {
    if t in types[1..] {
      var i :| 0 <= i < |types[1..]| && types[1..][i] == t;
      TypesClimb(types, i + 1);
    }
    assert types == [types[0]] + types[1..];
  }

  /** A remap of as many types as are used, all of them used, lists exactly the types in use. */
  lemma {:induction false} RemapExact(types: seq<u32>, edges: seq<Edge>)
    requires TypesAscending(types) && |UsedTypes(edges)| == |types|
    requires forall i :: 0 <= i < |types| ==> types[i] in UsedTypes(edges)
    ensures types == TypeList(edges)
  {
    hide TypeList, UsesType;
    var listed := set i | 0 <= i < |types| :: types[i];
    TypesCounted(types);
    assert listed <= UsedTypes(edges);
    SubsetSize(listed, UsedTypes(edges));
    EqualSets(listed, UsedTypes(edges));
    TypeListFacts(edges);
    forall t ensures t in types <==> t in TypeList(edges) {
      assert t in types <==> t in listed;
      UsedIs(edges, t);
    }
    SameTypes(types, TypeList(edges));
  }

  lemma {:induction false} UsedIs(edges: seq<Edge>, t: u32)
    ensures t in UsedTypes(edges) <==> UsesType(edges, t)
  {
  }

  lemma {:induction false} EqualSets<T>(a: set<T>, b: set<T>)
    requires a <= b && |a| == |b|
    ensures a == b
  {
    assert b == a + (b - a);
    assert |b| == |a| + |b - a|;
  }

  // ----- The theorem -----

  /** Everything the loader promises about what it returns. */
  ghost predicate Sound(nids: seq<u64>, a: Adjacency, utf8: bytes -> bool) {
    && a.layout.Valid()
    && Ascending(a.groups, GroupKey)
    && (forall g :: 0 <= g < |a.groups| ==>
          && (a.groups[g].namespace.Tenant? ==>
                a.groups[g].namespace.name != [] && utf8(a.groups[g].namespace.name))
          && a.groups[g].rows != []
          && RowsBuilt(nids, a.groups[g].rows, a.csc, a.layout))
    && IdsDistinct(EdgesOf(a.groups, Outgoing)) && IdsDistinct(EdgesOf(a.groups, Incoming))
    && (a.csc ==> MirrorsAgree(a.groups))
    && (a.layout.remap.Some? ==> a.layout.remap.value == TypeList(AllEdges(a.groups)) != [])
  }

  lemma {:induction false} RemapSound(a: Artifact.CheckedArtifact, flag: bool)
    requires LoadRemap(a, flag).Ok?
    ensures var r := LoadRemap(a, flag).value;
      r.Some? ==> 0 < |r.value| <= 65536 && TypesAscending(r.value)
  {
    hide Artifact.ReadSection, Artifact.Find, TypesAscending;
    if flag {
      var content := Artifact.ReadSection(a, TYPE_REMAP).value;
      var n := Artifact.Find(a.entries, TYPE_REMAP).value.elemCount;
      DivUnique(|content|, 4, n, 0);
    }
  }

  /** Whatever opens is as the builder would have made it: namespaces in order under proper names, rows by ascending
      known nodes, valid entries in order, distinct ids, one weight layout, agreeing directions and the remap of exactly
      the types in use. */
  lemma {:induction false} OpenSound(file: bytes, nids: seq<u64>, crc: Artifact.Crc, utf8: bytes -> bool, a: Adjacency)
    requires OpenFile(file, nids, crc, utf8) == Ok(a)
    ensures Sound(nids, a, utf8)
  {
    hide Artifact.Open, FlagsAgree, LoadRemap, LoadNamespaces, LoadColumns, DecodeGroups, EdgesOf, IdsDistinct,
      MirrorsAgree, TypeList, AllEdges, Ascending, RowsBuilt, NamesValid, OpenedSound, TypesAscending, UsedTypes,
        NamespaceKey;
    var art := Artifact.Open(SPEC, crc, file).value;
    var remap := art.flags / 8 % 2 == 1;
    RemapSound(art, remap);
    var l := a.layout;
    NamespacesSound(art, utf8);
    var items := LoadNamespaces(art, utf8).value;
    ColumnsLoaded(art, items, a.csc, art.flags / 2 % 2 == 1, l);
    var o := LoadColumns(art, items, a.csc, art.flags / 2 % 2 == 1, l).value;
    GroupsSound(nids, o, a.csc, l, 0);
    forall k | 0 <= k < |a.groups| ensures GroupMatches(nids, a.groups[k], items[k], a.csc, l) {
      assert GroupMatches(nids, a.groups[k], o.namespaces[0 + k], a.csc, l);
    }
    GroupsAscend(a.groups, items);
    forall g | 0 <= g < |a.groups|
      ensures a.groups[g].namespace.Tenant? ==> a.groups[g].namespace.name != [] && utf8(a.groups[g].namespace.name)
    {
      NameAt(items, utf8, g);
    }
    if l.remap.Some? {
      RemapExact(l.remap.value, AllEdges(a.groups));
    }
  }

  lemma {:induction false} NameAt(items: seq<NamespaceRows>, utf8: bytes -> bool, i: nat)
    requires NamesValid(items, utf8) && i < |items|
    ensures items[i].namespace.Tenant? ==> items[i].namespace.name != [] && utf8(items[i].namespace.name)
  {
  }

  /** In a sound adjacency every entry has a weight or none has. */
  lemma {:induction false} SoundWeights(nids: seq<u64>, a: Adjacency, utf8: bytes -> bool)
    requires Sound(nids, a, utf8)
    ensures WeightsTotal(AllEdges(a.groups))
  {
    hide OrdinalsValid, RowSorted, TypeList, MirrorsAgree, IdsDistinct, EdgesOf, Ascending;
    var all := AllEdges(a.groups);
    forall k | 0 <= k < |all| ensures all[k].weight.Some? == a.layout.weighted {
      var split := |EdgesOf(a.groups, Outgoing)|;
      var d := if k < split then Outgoing else Incoming;
      var g, r, j := EdgeLocated(a.groups, d, if k < split then k else k - split);
      var row := Side(a.groups[g].rows, d)[r];
      assert RowValid(nids, a.groups[g].rows[r].node, row, a.layout);
      assert EdgeValid(nids, a.groups[g].rows[r].node, row[j], a.layout);
    }
  }

  /** So an opened file of fewer than 2^32 entries each way can be written again, and opens as the same adjacency. */
  lemma {:induction false} OpenedIsBuilt(
    file: bytes, nids: seq<u64>, crc: Artifact.Crc, utf8: bytes -> bool, a: Adjacency)
    requires OpenFile(file, nids, crc, utf8) == Ok(a)
    requires |EdgesOf(a.groups, Outgoing)| < U32_LIMIT && |EdgesOf(a.groups, Incoming)| < U32_LIMIT
    ensures Built(nids, a)
    ensures Write(a, crc).Ok? ==> OpenFile(Write(a, crc).value, nids, crc, utf8) == Ok(a)
  {
    hide OpenFile, Write, RowsBuilt, EdgesOf, IdsDistinct, MirrorsAgree, TypeList, Ascending, WeightsTotal, AllEdges;
    OpenSound(file, nids, crc, utf8, a);
    SoundWeights(nids, a, utf8);
    if Write(a, crc).Ok? {
      FileOpens(nids, a, crc, utf8, Write(a, crc).value);
    }
  }

  // ----- Which sections an opened file has -----

  lemma {:induction false} OpenedEntries(file: bytes, crc: Artifact.Crc, id: u32)
    requires Artifact.Open(SPEC, crc, file).Ok?
    ensures var art := Artifact.Open(SPEC, crc, file).value;
      && (2 <= id <= 7 ==> Present(art, id))
      && (Present(art, id) ==> 1 <= id <= 14)
  {
    hide Artifact.ParseHeader, Artifact.ParseTable, Artifact.Tiled, Artifact.SortedRanges;
    var art := Artifact.Open(SPEC, crc, file).value;
    assert SPEC.required == [2, 3, 4, 5, 6, 7] && SPEC.optional == [1, 8, 9, 10, 11, 12, 13, 14];
    if 2 <= id <= 7 {
      assert SPEC.required[id - 2] == id;
    }
    if Present(art, id) {
      var e := Artifact.Find(art.entries, id).value;
      var i :| 0 <= i < |art.entries| && art.entries[i] == e;
      assert Artifact.KnownSection(SPEC, art.entries[i].id);
    }
  }

  lemma {:induction false} IncomingSections(a: Artifact.CheckedArtifact, count: nat, l: Layout)
    requires LoadDirection(a, IN_BASE, count, l).Ok?
    ensures Present(a, 9) && Present(a, 10) && Present(a, 11) && Present(a, 12)
  {
    hide LoadGroups, Artifact.ReadSection, Artifact.Find;
  }

  /** An opened file has exactly the sections its content calls for; the chains have theirs exactly if the flags say
      so. */
  lemma {:induction false} OpenSections(
    file: bytes, nids: seq<u64>, crc: Artifact.Crc, utf8: bytes -> bool, a: Adjacency, id: u32)
    requires OpenFile(file, nids, crc, utf8) == Ok(a)
    ensures Artifact.Open(SPEC, crc, file).Ok?
    ensures var art := Artifact.Open(SPEC, crc, file).value;
      Present(art, id) <==>
        || 2 <= id <= 7
        || (id == 1 && a.layout.remap.Some?) || (id == 8 && a.layout.weighted)
        || (9 <= id <= 12 && a.csc) || (id == 13 && a.csc && a.layout.weighted)
        || (id == 14 && art.flags / 2 % 2 == 1)
  {
    hide Artifact.Open, LoadNamespaces, DecodeGroups, FileConsistent, LoadDirection, LoadSection, Present;
    OpenedEntries(file, crc, id);
    var art := Artifact.Open(SPEC, crc, file).value;
    if a.csc {
      IncomingSections(art, |LoadNamespaces(art, utf8).value|, a.layout);
    }
    RemapFlag(art, art.flags / 8 % 2 == 1);
  }

  lemma {:induction false} RemapFlag(a: Artifact.CheckedArtifact, flag: bool)
    requires LoadRemap(a, flag).Ok?
    ensures LoadRemap(a, flag).value.Some? == flag
  {
  }
}
