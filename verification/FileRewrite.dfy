/** Whatever `open` in `graph_edge.rs` accepts can be written again: the limits of
    the loader are within those of the writer. */
module FileRewrite {
  import opened Wrappers
  import opened Bytes
  import opened Ordering
  import opened Namespaces
  import opened RowChunking
  import opened EdgeTuples
  import opened EdgeColumns
  import opened EdgeOverflow
  import opened EdgeGroups
  import opened EdgeDivision
  import opened AdjacencyBuilder
  import opened AdjacencyFile
  import opened WriteAcceptance
  import Artifact
  import GroupedSections
  import LoadSoundness

  // ----- Chains are not too deep -----

  predicate Shallow(records: seq<ChainRecord>) {
    forall k :: 0 <= k < |records| ==> records[k].chunkCount <= 1024
  }

  lemma {:induction false} RecordsShallow(raws: seq<bytes>, csc: bool, rowCount: nat, expectedFirst: nat)
    requires AllWide(raws, 32) && ParseRecords(raws, csc, rowCount, expectedFirst).Ok?
    ensures Shallow(ParseRecords(raws, csc, rowCount, expectedFirst).value)
    decreases |raws|
  {
    hide ParseRecord;
    if raws != [] {
      var record := ParseRecord(raws[0], csc).value;
      RecordsShallow(raws[1..], csc, rowCount, expectedFirst + record.chunkCount);
    }
  }

  lemma {:induction false} DirectoryShallow(rowCount: nat, frame: GroupedSections.Group, csc: bool)
    requires ReadDirectory(rowCount, frame, csc).Ok?
    ensures Shallow(ReadDirectory(rowCount, frame, csc).value)
  {
    hide ParseRecords, Get32, Rows, Shallow;
    var s := frame.payload;
    var count: nat := Get32(s, 0);
    if count == 0 {
      NoneShallow();
    } else {
      RecordsShallow(Rows(s[8..8 + count * 32], 32), csc, rowCount, 0);
    }
  }

  lemma {:induction false} NoneShallow()
    ensures Shallow([])
  {
  }

  lemma {:induction false} PartsFew(
    nids: seq<u64>, node: u32, arena: seq<bytes>, first: nat, count: nat, j: nat, l: Layout)
    requires AllWide(arena, CHUNK_BYTES) && first + count <= |arena| && first + count <= NO_NEXT && j <= count
    ensures |StoredParts(nids, node, arena, first, count, j, l)| <= count - j
    decreases count - j
  {
    hide DecodeChunk;
    if j < count {
      PartsFew(nids, node, arena, first, count, j + 1, l);
    }
  }

  lemma {:induction false} RecordPartsFew(
    nids: seq<u64>, ordinals: seq<u32>, arena: seq<bytes>, r: ChainRecord, l: Layout)
    requires AllWide(arena, CHUNK_BYTES)
    ensures |RecordParts(nids, ordinals, arena, r, l)| <= r.chunkCount
  {
    hide StoredParts;
    if r.row < |ordinals| && r.firstChunk + r.chunkCount <= |arena| && r.firstChunk + r.chunkCount <= NO_NEXT {
      PartsFew(nids, ordinals[r.row], arena, r.firstChunk, r.chunkCount, 0, l);
    }
  }

  lemma {:induction false} ChunksFew(nids: seq<u64>, f: Stored, l: Layout, d: Direction, row: nat)
    ensures |StoredChunks(nids, f, l, d, row)| <= 1024
  {
    hide ReadDirectory, ReadOrdinals, Arena, RecordParts;
    var ordinals := ReadOrdinals(nids, f.nodes, f.rowCount);
    if ordinals.Ok? && f.overflow.Some? {
      var records := ReadDirectory(|ordinals.value|, f.overflow.value, f.incoming.Some?);
      if records.Ok? && RecordFor(records.value, row, d).Some? {
        DirectoryShallow(|ordinals.value|, f.overflow.value, f.incoming.Some?);
        RecordForIn(records.value, row, d);
        RecordPartsFew(nids, ordinals.value, Arena(f.overflow.value), RecordFor(records.value, row, d).value, l);
      }
    }
  }

  /** A loaded row lies in the file as at most 1025 parts that fit a chunk. */
  lemma {:induction false} LoadedStorable(nids: seq<u64>, f: Stored, l: Layout, rows: seq<Row>, d: Direction, i: nat)
    requires Load(nids, f, l) == Ok(rows) && i < |rows|
    ensures RowStorable(Side(rows, d)[i], l)
  {
    hide Load, StoredInline, StoredChunks, Sum, TupleLen;
    LoadedRowAccepted(nids, f, l, rows, d, i);
    ChunksFew(nids, f, l, d, i);
    var inline, chunks := StoredInline(nids, f, l, d).value[i], StoredChunks(nids, f, l, d, i);
    var parts := [inline] + chunks;
    assert parts[1..] == chunks;
    forall k | 0 <= k < |parts| ensures Sum(parts[k], TupleLen(l)) <= CHUNK_PAYLOAD_BYTES {
      if k > 0 {
        AcceptedPart(chunks, TupleLen(l), k - 1);
      }
    }
    assert Cut(parts, Side(rows, d)[i], TupleLen(l));
  }

  // ----- The namespace index -----

  /** Every record stated where its name begins, how long it is, and where its rows end, in 32 bits. */
  predicate RoomFor(items: seq<NamespaceRows>, nameOffset: nat, rowStart: nat)
    decreases |items|
  {
    items == [] ||
    (&& nameOffset < U32_LIMIT && |NameOf(items[0].namespace)| < U32_LIMIT
     && rowStart + items[0].rowCount < U32_LIMIT
     && RoomFor(items[1..], nameOffset + |NameOf(items[0].namespace)|, rowStart + items[0].rowCount))
  }

  lemma {:induction false} RecordRoom(
    record: bytes, strings: bytes, utf8: bytes -> bool, nameOffset: nat, rowStart: nat)
    requires |record| == RECORD_BYTES && DecodeRecord(record, strings, utf8, nameOffset, rowStart).Ok?
    ensures var item := DecodeRecord(record, strings, utf8, nameOffset, rowStart).value;
      && nameOffset < U32_LIMIT && |NameOf(item.namespace)| < U32_LIMIT && rowStart + item.rowCount < U32_LIMIT
  {
    hide FromLE;
  }

  lemma {:induction false} RecordsRoom(
    records: seq<bytes>, strings: bytes, utf8: bytes -> bool, nameOffset: nat, rowStart: nat)
    requires AllWide(records, RECORD_BYTES) && DecodeRecords(records, strings, utf8, nameOffset, rowStart).Ok?
    ensures RoomFor(DecodeRecords(records, strings, utf8, nameOffset, rowStart).value, nameOffset, rowStart)
    decreases |records|
  {
    hide DecodeRecord, NameOf;
    if records != [] {
      var item := DecodeRecord(records[0], strings, utf8, nameOffset, rowStart).value;
      RecordRoom(records[0], strings, utf8, nameOffset, rowStart);
      RecordsRoom(records[1..], strings, utf8, nameOffset + |NameOf(item.namespace)|, rowStart + item.rowCount);
    }
  }

  lemma {:induction false} IndexRoom(a: Artifact.CheckedArtifact, utf8: bytes -> bool)
    requires LoadNamespaces(a, utf8).Ok?
    ensures RoomFor(LoadNamespaces(a, utf8).value, 0, 0) && |LoadNamespaces(a, utf8).value| * 24 < U32_LIMIT
  {
    hide Artifact.ReadSection, Artifact.Find, DecodeRecords, InOrder, RoomFor, FromLE;
    var s := Artifact.ReadSection(a, NAMESPACE_INDEX).value;
    var count: nat := Get32(s, 0);
    var stringStart := HEADER_BYTES + count * 24;
    var records := Rows(s[HEADER_BYTES..stringStart], RECORD_BYTES);
    DivUnique(count * 24, 24, count, 0);
    RecordsRoom(records, s[stringStart..], utf8, 0, 0);
  }

  predicate Listed(groups: seq<NamespaceGroup>, items: seq<NamespaceRows>) {
    |groups| == |items| && forall i :: 0 <= i < |items| ==>
      groups[i].namespace == items[i].namespace && |groups[i].rows| == items[i].rowCount
  }

  lemma {:induction false} RoomGives(
    groups: seq<NamespaceGroup>, items: seq<NamespaceRows>, nameOffset: nat, rowStart: nat)
    requires Listed(groups, items) && RoomFor(items, nameOffset, rowStart) && rowStart < U32_LIMIT
    ensures rowStart + RowTotal(groups) < U32_LIMIT
    ensures forall i :: 0 <= i < |groups| ==>
      nameOffset + NameTotal(groups[..i]) < U32_LIMIT && |NameOf(groups[i].namespace)| < U32_LIMIT
    decreases |items|
  {
    hide NameOf;
    if items != [] {
      var name := |NameOf(items[0].namespace)|;
      var rest := groups[1..];
      assert Listed(rest, items[1..]);
      RoomGives(rest, items[1..], nameOffset + name, rowStart + items[0].rowCount);
      forall i | 0 <= i < |groups|
        ensures nameOffset + NameTotal(groups[..i]) < U32_LIMIT && |NameOf(groups[i].namespace)| < U32_LIMIT
      {
        if i > 0 {
          assert groups[..i][1..] == rest[..i - 1] && groups[i] == rest[i - 1];
        }
      }
    }
  }

  // ----- The theorem -----

  /** The group at a place of an opened file, as it was stored. */
  lemma {:induction false} GroupLoaded(nids: seq<u64>, o: Opened, l: Layout, i: nat, k: nat)
    requires o.Aligned() && i <= k < |o.namespaces| && DecodeGroups(nids, o, l, i).Ok?
    ensures DecodeAt(nids, o, l, k) == Ok(DecodeGroups(nids, o, l, i).value[k - i])
    decreases k - i
  {
    hide DecodeAt;
    if i < k {
      GroupLoaded(nids, o, l, i + 1, k);
    }
  }

  lemma {:induction false} GroupStorable(nids: seq<u64>, o: Opened, l: Layout, i: nat)
    requires o.Aligned() && i < |o.namespaces| && DecodeAt(nids, o, l, i).Ok?
    ensures RowsStorable(DecodeAt(nids, o, l, i).value.rows, l)
  {
    hide DecodeGroup, RowStorable;
    var f := Stored(o.namespaces[i].rowCount, o.nodes[i], o.outgoing[i],
      if o.incoming.Some? then Some(o.incoming.value[i]) else None,
      if o.overflow.Some? then Some(o.overflow.value[i]) else None);
    var rows := DecodeAt(nids, o, l, i).value.rows;
    forall r | 0 <= r < |rows| ensures RowStorable(rows[r].outgoing, l) && RowStorable(rows[r].incoming, l) {
      LoadedStorable(nids, f, l, rows, Outgoing, r);
      LoadedStorable(nids, f, l, rows, Incoming, r);
    }
  }

  lemma {:induction false} OpenedFits(
    file: bytes, nids: seq<u64>, crc: Artifact.Crc, utf8: bytes -> bool, a: Adjacency)
    requires OpenFile(file, nids, crc, utf8) == Ok(a)
    ensures FileFits(a)
  {
    hide Artifact.Open, FlagsAgree, LoadRemap, LoadNamespaces, LoadColumns, DecodeGroups, FileConsistent, RowsStorable,
      RoomFor, InOrder, NamesValid, LoadSoundness.OpenedSound, RowTotal, NameTotal, NameOf, DecodeAt;
    var art := Artifact.Open(SPEC, crc, file).value;
    var l, items := a.layout, LoadNamespaces(art, utf8).value;
    LoadSoundness.NamespacesSound(art, utf8);
    IndexRoom(art, utf8);
    LoadSoundness.ColumnsLoaded(art, items, a.csc, art.flags / 2 % 2 == 1, l);
    var o := LoadColumns(art, items, a.csc, art.flags / 2 % 2 == 1, l).value;
    LoadSoundness.GroupsSound(nids, o, a.csc, l, 0);
    forall k | 0 <= k < |a.groups|
      ensures a.groups[k].namespace == items[k].namespace && |a.groups[k].rows| == items[k].rowCount
      ensures RowsStorable(a.groups[k].rows, l) && a.groups[k].namespace != Tenant([])
    {
      assert LoadSoundness.GroupMatches(nids, a.groups[k], o.namespaces[0 + k], a.csc, l);
      GroupLoaded(nids, o, l, 0, k);
      GroupStorable(nids, o, l, k);
      LoadSoundness.NameAt(items, utf8, k);
    }
    RoomGives(a.groups, items, 0, 0);
  }

  /** Every file that opens, with fewer than 2^32 entries each way, holds an adjacency that can be written, and what is
      written opens as the same adjacency. */
  lemma {:induction false} OpenedRewrites(
    file: bytes, nids: seq<u64>, crc: Artifact.Crc, utf8: bytes -> bool, a: Adjacency)
    requires OpenFile(file, nids, crc, utf8) == Ok(a)
    requires |EdgesOf(a.groups, Outgoing)| < U32_LIMIT && |EdgesOf(a.groups, Incoming)| < U32_LIMIT
    ensures Write(a, crc).Ok? && OpenFile(Write(a, crc).value, nids, crc, utf8) == Ok(a)
  {
    hide OpenFile, Write, Built, FileFits, EdgesOf;
    LoadSoundness.OpenedIsBuilt(file, nids, crc, utf8, a);
    OpenedFits(file, nids, crc, utf8, a);
    WriteAccepts(nids, a, crc);
  }
}
