/** Exactly which property tables are built and written (`EdgePropertyTable::build` and `write` in
    `graph_edgeprop.rs`), the first said about the documents alone. */
module PropertyAcceptance {
  import opened Wrappers
  import opened Bytes
  import opened Ordering
  import opened JsonValues
  import opened JsonParsing
  import opened TaggedNeighbors
  import opened PropertyColumns
  import opened PropertyTable
  import opened PropertyDirectory
  import opened PropertyFile
  import Artifact

  // ----- Building -----

  /** Valid and distinct edge ids, documents within the length limit, and no empty key. */
  predicate Acceptable(rows: seq<Row>, codec: Codec) {
    && (forall i :: 0 <= i < |rows| ==>
          && ValidHandle(rows[i].edgeId)
          && |DocumentText(rows[i].doc, codec)| <= 65536
          && forall j :: 0 <= j < |rows[i].doc| ==> rows[i].doc[j].key != [])
    && (forall i, j :: 0 <= i < j < |rows| ==> rows[i].edgeId != rows[j].edgeId)
    && |rows| < U64_LIMIT - 7
  }

  lemma {:induction false} CellPresent(doc: seq<Field>, key: bytes)
    ensures CellOf(doc, key).Absent? <==> forall j :: 0 <= j < |doc| ==> doc[j].key != key
  {
    if doc != [] {
      CellPresent(doc[1..], key);
      Split(doc, (f: Field) => f.key != key);
    }
  }

  predicate Keyed(r: Row) {
    forall j :: 0 <= j < |r.doc| ==> r.doc[j].key != []
  }

  lemma {:induction false} EmptyKeyUsed(rows: seq<Row>)
    ensures [] in AllKeys(rows) <==> !forall i :: 0 <= i < |rows| ==> Keyed(rows[i])
  {
    hide AllKeys, CellOf;
    AllKeysMeans(rows);
    var none: bytes := [];
    forall i | 0 <= i < |rows| ensures CellOf(rows[i].doc, none).Absent? <==> Keyed(rows[i]) {
      CellPresent(rows[i].doc, none);
    }
    assert none in AllKeys(rows) <==> Uses(rows, none);
  }

  lemma {:induction false} IdPairs(rows: seq<Row>)
    ensures Ascending(Sort(rows, RowKey), RowKey) <==>
      forall i, j :: 0 <= i < j < |rows| ==> rows[i].edgeId != rows[j].edgeId
  {
    hide Ascending, Sort, Distinct;
    SortAscending(rows, RowKey);
    DistinctPairs(rows, RowKey);
    forall i, j | 0 <= i < j < |rows| ensures RowKey(rows[i]) != RowKey(rows[j]) <==> rows[i].edgeId != rows[j].edgeId {
      assert RowKey(rows[i])[0] == rows[i].edgeId && RowKey(rows[j])[0] == rows[j].edgeId;
    }
  }

  /** A table is built exactly of acceptable documents. */
  lemma {:induction false} BuildExact(rows: seq<Row>, codec: Codec)
    ensures Build(rows, codec).Ok? <==> Acceptable(rows, codec)
  {
    hide Sort, Ascending, AllKeys, DocumentText, ValidHandle, ColumnsOf;
    var sorted := Sort(rows, RowKey);
    IdPairs(rows);
    EmptyKeyUsed(sorted);
    SortAll(rows, RowKey, (r: Row) => RowAdmitted(r, codec));
    SortAll(rows, RowKey, (r: Row) => Keyed(r));
    assert All(sorted, (r: Row) => Keyed(r)) <==> forall i :: 0 <= i < |sorted| ==> Keyed(sorted[i]);
    assert All(rows, (r: Row) => Keyed(r)) <==> forall i :: 0 <= i < |rows| ==> Keyed(rows[i]);
  }

  // ----- Writing -----

  /** Where a file ends whose sections have these lengths, each begun on a multiple of eight. */
  function EndOf(next: nat, lengths: seq<nat>): nat
    decreases |lengths|
  {
    if lengths == [] then next else EndOf(AlignUp(next, 8) + lengths[0], lengths[1..])
  }

  function KeyTotal(es: seq<Encoded>): nat {
    if es == [] then 0 else |es[0].key| + KeyTotal(es[1..])
  }

  function AreaLength(es: seq<Encoded>, a: Area): nat {
    |Content(es, a)|
  }

  /** Edge ids, directory, and what the columns put into each section. */
  function SectionLengths(es: seq<Encoded>, rows: nat): seq<nat> {
    var required := [8 * rows, 16 + 112 * |es| + KeyTotal(es), AreaLength(es, Presences), AreaLength(es, NullMaps),
      AreaLength(es, ScalarData), AreaLength(es, StringOffsets)];
    var strings := if HasStrings(es) then [AreaLength(es, Strings)] else [];
    var json := if HasJson(es) then [AreaLength(es, JsonOffsets), AreaLength(es, Jsons)] else [];
    required + strings + json
  }

  predicate KeysFit(es: seq<Encoded>) {
    && |es| < U32_LIMIT
    && forall i :: 0 <= i < |es| ==>
         KeyTotal(es[..i]) < U32_LIMIT && |es[i].key| < U32_LIMIT && es[i].count < U64_LIMIT
  }

  /** Keys can be addressed with 32 bits, and the file with 64. */
  predicate Fits(es: seq<Encoded>, rows: nat) {
    && KeysFit(es) && rows < U64_LIMIT
    && var lengths := SectionLengths(es, rows);
      EndOf(32 + 32 * |lengths|, lengths) < U64_LIMIT
  }

  lemma {:induction false} EndGrows(next: nat, lengths: seq<nat>, i: nat)
    requires i < |lengths|
    ensures next <= EndOf(next, lengths) && lengths[i] <= EndOf(next, lengths)
    decreases |lengths|
  {
    hide AlignUp;
    var from := AlignUp(next, 8) + lengths[0];
    if i > 0 {
      EndGrows(from, lengths[1..], i - 1);
    } else if |lengths| > 1 {
      EndGrows(from, lengths[1..], 0);
    }
  }

  function Lengths(sections: seq<Artifact.Section>): (r: seq<nat>)
    ensures |r| == |sections| && forall i :: 0 <= i < |r| ==> r[i] == |sections[i].content|
  {
    seq(|sections|, i requires 0 <= i < |sections| => |sections[i].content|)
  }

  lemma {:induction false} FileEnds(next: nat, sections: seq<Artifact.Section>)
    requires sections != []
    ensures Artifact.AllPowersOfTwo([])
    ensures Artifact.FileLen(sections, Artifact.SectionOffsets(next, sections, [])) == EndOf(next, Lengths(sections))
    decreases |sections|
  {
    hide AlignUp;
    var offsets := Artifact.SectionOffsets(next, sections, []);
    assert Artifact.AlignmentOf([], sections[0].id) == 8;
    var from := offsets[0] + |sections[0].content|;
    var tail := sections[1..];
    assert Lengths(sections)[1..] == Lengths(tail);
    if tail != [] {
      FileEnds(from, tail);
      assert offsets[1..] == Artifact.SectionOffsets(from, tail, []);
    } else {
      assert EndOf(from, Lengths(tail)) == from;
    }
  }

  // ----- The directory -----

  lemma {:induction false} KeyStarts(es: seq<Encoded>, i: nat)
    requires i <= |es|
    ensures Start(KeyList(DescribeAll(es)), i) == KeyTotal(es[..i])
  {
    hide Flat, Describe;
    var keys := KeyList(DescribeAll(es));
    StartTotal(keys);
    if i > 0 {
      KeyStarts(es, i - 1);
      FlatSlice(keys, i - 1);
      KeyTotalSnoc(es[..i - 1], es[i - 1]);
      assert es[..i] == es[..i - 1] + [es[i - 1]];
      KeyOf(es, i - 1);
    }
  }

  lemma {:induction false} KeyOf(es: seq<Encoded>, i: nat)
    requires i < |es|
    ensures Describe(es, i).key == es[i].key && Describe(es, i).valueCount == es[i].count
  {
    hide Flat;
  }

  lemma {:induction false} KeyTotalSnoc(es: seq<Encoded>, e: Encoded)
    ensures KeyTotal(es + [e]) == KeyTotal(es) + |e.key|
  {
    if es == [] {
      assert es + [e] == [e] && [e][1..] == [];
    } else {
      KeyTotalSnoc(es[1..], e);
      assert (es + [e])[1..] == es[1..] + [e];
    }
  }

  lemma {:induction false} AllKeyBytes(es: seq<Encoded>)
    ensures |Flat(KeyList(DescribeAll(es)))| == KeyTotal(es)
  {
    hide Flat, Describe;
    KeyStarts(es, |es|);
    StartTotal(KeyList(DescribeAll(es)));
    assert es[..|es|] == es;
  }

  lemma {:induction false} OffsetWithin(es: seq<Encoded>, a: Area, i: nat)
    requires i < |es|
    ensures Start(Parts(es, a), i) + |Part(es[i], a)| <= |Content(es, a)|
  {
    hide Flat, Start, Part;
    FlatSlice(Parts(es, a), i);
  }

  lemma {:induction false} RecordNumbers(es: seq<Encoded>, rows: nat, i: nat)
    requires i < |es| && AreasFit(es) && rows < U64_LIMIT && es[i].count < U64_LIMIT
    ensures NumbersFit(Describe(es, i), rows)
  {
    hide Flat, Start, Content;
    var e := es[i];
    OffsetWithin(es, Presences, i);
    OffsetWithin(es, NullMaps, i);
    OffsetWithin(es, ValueArea(e.kind), i);
    if !IsScalar(e.kind) {
      OffsetWithin(es, DataArea(e.kind), i);
    }
    assert |Content(es, Presences)| < U64_LIMIT && |Content(es, NullMaps)| < U64_LIMIT;
    assert |Content(es, ValueArea(e.kind))| < U64_LIMIT;
    assert !IsScalar(e.kind) ==> |Content(es, DataArea(e.kind))| < U64_LIMIT;
  }

  lemma {:induction false} KeyTotalSmall(es: seq<Encoded>)
    requires KeysFit(es)
    ensures KeyTotal(es) < U64_LIMIT
  {
    if es != [] {
      var n := |es| - 1;
      assert es == es[..n] + [es[n]];
      KeyTotalSnoc(es[..n], es[n]);
      assert KeyTotal(es[..n]) < U32_LIMIT && |es[n].key| < U32_LIMIT;
    }
  }

  /** With contents that fit, the directory is written exactly when the keys fit. */
  lemma {:induction false} DirectoryExact(es: seq<Encoded>, rows: nat)
    requires AreasFit(es) && rows < U64_LIMIT
    ensures DirectoryFits(DescribeAll(es), rows) <==> KeysFit(es)
    ensures DirectoryFits(DescribeAll(es), rows) ==>
      |DirectoryBytes(DescribeAll(es), rows)| == 16 + 112 * |es| + KeyTotal(es)
  {
    hide AreasFit, Flat, Describe, Start, NumbersFit, KeyTotal, Records;
    var ds := DescribeAll(es);
    AllKeyBytes(es);
    forall i | 0 <= i < |es|
      ensures RecordFits(ds, rows, i) <==>
        KeyTotal(es[..i]) < U32_LIMIT && |es[i].key| < U32_LIMIT && es[i].count < U64_LIMIT
    {
      KeyStarts(es, i);
      KeyOf(es, i);
      CountFits(ds[i], rows);
      if es[i].count < U64_LIMIT {
        RecordNumbers(es, rows, i);
      }
    }
    if KeysFit(es) {
      KeyTotalSmall(es);
    }
    if DirectoryFits(ds, rows) {
      FlatWide(Records(ds, rows), RECORD_BYTES);
    }
  }

  lemma {:induction false} CountFits(d: Descriptor, rows: nat)
    ensures NumbersFit(d, rows) ==> d.valueCount < U64_LIMIT
  {
    assert Numbers(d, rows)[8] == d.valueCount;
  }

  // ----- The file -----

  /** Every section fits if the file does. */
  lemma {:induction false} ContentsFit(es: seq<Encoded>, rows: nat)
    requires var lengths := SectionLengths(es, rows); EndOf(32 + 32 * |lengths|, lengths) < U64_LIMIT
    ensures AreasFit(es)
  {
    hide Content, HasStrings, HasJson, EndOf, KeyTotal;
    var lengths := SectionLengths(es, rows);
    var from := 32 + 32 * |lengths|;
    MissingIsEmpty(es);
    forall i | 0 <= i < |lengths| ensures lengths[i] < U64_LIMIT {
      EndGrows(from, lengths, i);
    }
    var json := if HasStrings(es) then 7 else 6;
    assert lengths[2] == |Content(es, Presences)| && lengths[3] == |Content(es, NullMaps)|;
    assert lengths[4] == |Content(es, ScalarData)| && lengths[5] == |Content(es, StringOffsets)|;
    assert HasStrings(es) ==> lengths[6] == |Content(es, Strings)|;
    assert HasJson(es) ==> lengths[json] == |Content(es, JsonOffsets)| && lengths[json + 1] == |Content(es, Jsons)|;
    forall a ensures |Content(es, a)| < U64_LIMIT {
      match a
      case Presences =>
      case NullMaps =>
      case ScalarData =>
      case StringOffsets =>
      case Strings =>
      case JsonOffsets =>
      case Jsons =>
    }
  }

  lemma {:induction false} LengthsListed(ids: seq<u64>, directory: bytes, es: seq<Encoded>)
    requires LengthsFit(es, |ids|) && |directory| == 16 + 112 * |es| + KeyTotal(es)
    ensures Lengths(SectionsOf(ids, directory, es)) == SectionLengths(es, |ids|)
  {
    hide Content, HasStrings, HasJson, KeyTotal;
    var words := PutWords(ids, 8);
    assert |words| == 8 * |ids|;
  }

  function IdsFor(strings: bool, json: bool): seq<u32> {
    [1, 2, 3, 4, 5, 6] + (if strings then [7] else []) + (if json then [8, 9] else [])
  }

  predicate HaveIds(sections: seq<Artifact.Section>, ids: seq<u32>) {
    |sections| == |ids| && forall i :: 0 <= i < |ids| ==> sections[i].id == ids[i]
  }

  lemma {:induction false} SectionIds(ids: seq<u64>, directory: bytes, es: seq<Encoded>)
    requires LengthsFit(es, |ids|)
    ensures HaveIds(SectionsOf(ids, directory, es), IdsFor(HasStrings(es), HasJson(es)))
  {
    hide Content, HasStrings, HasJson, PutWords;
  }

  lemma {:induction false} IdsKnown(strings: bool, json: bool, i: nat)
    requires i < |IdsFor(strings, json)|
    ensures Artifact.KnownSection(SPEC, IdsFor(strings, json)[i])
    ensures forall j :: 0 <= j < i ==> IdsFor(strings, json)[j] < IdsFor(strings, json)[i]
  {
    assert SPEC.required == [1, 2, 3, 4, 5, 6] && SPEC.optional == [7, 8, 9];
  }

  lemma {:induction false} SectionsLawful(sections: seq<Artifact.Section>, strings: bool, json: bool)
    requires HaveIds(sections, IdsFor(strings, json))
    ensures Artifact.SortById(sections) == sections
    ensures Artifact.Writable(SPEC, FileFlags(strings, json), sections, [])
  {
    hide Artifact.KnownSection, FileFlags, Artifact.MaskedBy;
    assert SPEC.required == [1, 2, 3, 4, 5, 6] && SPEC.allowedFlags == 3;
    forall i | 0 <= i < |SPEC.required| ensures Artifact.HasId(sections, SPEC.required[i]) {
      assert sections[i].id == SPEC.required[i];
    }
    forall i | 0 <= i < |sections|
      ensures Artifact.KnownSection(SPEC, sections[i].id)
      ensures forall j :: 0 <= j < i ==> sections[j].id < sections[i].id
    {
      IdsKnown(strings, json, i);
    }
    Artifact.AlreadySorted(sections);
    FlagsAllowed(strings, json);
  }

  lemma {:induction false} FlagsAllowed(strings: bool, json: bool)
    ensures Artifact.MaskedBy(FileFlags(strings, json), 3)
  {
    var f := FileFlags(strings, json);
    assert Artifact.MaskedBy(f / 2 / 2, 0);
    assert Artifact.MaskedBy(f / 2, 1);
  }

  lemma {:induction false} SectionsExact(ids: seq<u64>, directory: bytes, es: seq<Encoded>, crc: Artifact.Crc)
    requires LengthsFit(es, |ids|) && |directory| == 16 + 112 * |es| + KeyTotal(es)
    ensures var flags, sections := FileFlags(HasStrings(es), HasJson(es)), SectionsOf(ids, directory, es);
      var lengths := SectionLengths(es, |ids|);
      Artifact.EncodeWithAlignments(SPEC, crc, flags, sections, []).Ok? <==>
        EndOf(32 + 32 * |lengths|, lengths) < U64_LIMIT
  {
    hide SectionsOf, SectionLengths, EndOf, Artifact.Writable, Artifact.SortById, Artifact.HeaderBytes, HasStrings,
      HasJson, LengthsFit, Artifact.SectionOffsets, Artifact.FileLen, FileFlags;
    var sections := SectionsOf(ids, directory, es);
    SectionIds(ids, directory, es);
    SectionsLawful(sections, HasStrings(es), HasJson(es));
    LengthsListed(ids, directory, es);
    SomeSections(sections, FileFlags(HasStrings(es), HasJson(es)));
    FileEnds(Artifact.HeaderLen(|sections|), sections);
  }

  lemma {:induction false} SomeSections(sections: seq<Artifact.Section>, flags: u32)
    requires Artifact.Writable(SPEC, flags, sections, [])
    ensures 0 < |sections| <= Artifact.MAX_SECTIONS && Artifact.AllPowersOfTwo([])
  {
  }

  /** A sound table is written exactly when it fits. */
  lemma {:induction false} WriteExact(t: Table, codec: Codec, utf8: bytes -> bool, crc: Artifact.Crc)
    requires AllSound(t.columns, utf8)
    ensures Write(t, codec, utf8, crc).Ok? <==> Fits(EncodeColumns(t.columns, codec, utf8), |t.edgeIds|)
  {
    hide AllSound, EncodeColumns, AreasFit, DirectoryFits, KeysFit, SectionLengths, EndOf, HasStrings, HasJson,
      SectionsOf, Artifact.EncodeWithAlignments, DirectoryBytes, DescribeAll, FileFlags;
    var es, rows := EncodeColumns(t.columns, codec, utf8), |t.edgeIds|;
    if EndOf(32 + 32 * |SectionLengths(es, rows)|, SectionLengths(es, rows)) < U64_LIMIT {
      ContentsFit(es, rows);
    }
    KeysFew(es);
    if AreasFit(es) && rows < U64_LIMIT {
      DirectoryExact(es, rows);
      if DirectoryFits(DescribeAll(es), rows) {
        SectionsExact(t.edgeIds, DirectoryBytes(DescribeAll(es), rows), es, crc);
      }
    }
  }

  lemma {:induction false} KeysFew(es: seq<Encoded>)
    ensures KeysFit(es) ==> |es| < U64_LIMIT
  {
  }

  /** Documents are built into a table exactly when they are acceptable; the table is written exactly when it fits; and
      the file opens exactly when every document parses back, and then answers for them. */
  lemma {:induction false} PropertiesStored(rows: seq<Row>, codec: Codec, utf8: bytes -> bool, crc: Artifact.Crc)
    requires Lawful(codec, utf8) && forall i :: 0 <= i < |rows| ==> DocSound(rows[i].doc, utf8)
    ensures Build(rows, codec).Ok? <==> Acceptable(rows, codec)
    ensures Acceptable(rows, codec) ==>
      var t := Build(rows, codec).value;
      && AllSound(t.columns, utf8)
      && (Write(t, codec, utf8, crc).Ok? <==> Fits(EncodeColumns(t.columns, codec, utf8), |rows|))
      && (Write(t, codec, utf8, crc).Ok? ==>
            var file := Write(t, codec, utf8, crc).value;
            && (Open(file, crc, codec, utf8).Ok? <==> forall i :: 0 <= i < |rows| ==> DocParses(rows[i].doc))
            && (Open(file, crc, codec, utf8).Ok? ==> Answers(Open(file, crc, codec, utf8).value, rows, codec, utf8)))
  {
    hide Build, Write, Open, Lawful, DocSound, Acceptable, Fits, Answers, DocParses, Built;
    BuildExact(rows, codec);
    if Acceptable(rows, codec) {
      var t := Build(rows, codec).value;
      BuildGives(rows, codec, utf8, t);
      var sorted := Sort(rows, RowKey);
      BuiltSound(sorted, AllKeys(sorted), t.columns, codec, utf8);
      WriteExact(t, codec, utf8, crc);
      if Write(t, codec, utf8, crc).Ok? {
        PropertyRoundTrip(rows, codec, utf8, crc, t, Write(t, codec, utf8, crc).value);
      }
    }
  }

  // ----- Which sections an opened file has -----

  lemma {:induction false} EntriesKnown(file: bytes, crc: Artifact.Crc, id: u32)
    requires Artifact.Open(SPEC, crc, file).Ok?
    ensures var art := Artifact.Open(SPEC, crc, file).value;
      && (1 <= id <= 6 ==> FilePresent(art, id))
      && (FilePresent(art, id) ==> 1 <= id <= 9)
  {
    hide Artifact.ParseHeader, Artifact.ParseTable, Artifact.Tiled, Artifact.SortedRanges;
    var art := Artifact.Open(SPEC, crc, file).value;
    assert SPEC.required == [1, 2, 3, 4, 5, 6] && SPEC.optional == [7, 8, 9];
    if 1 <= id <= 6 {
      assert SPEC.required[id - 1] == id;
    }
    if FilePresent(art, id) {
      var e := Artifact.Find(art.entries, id).value;
      var i :| 0 <= i < |art.entries| && art.entries[i] == e;
      assert Artifact.KnownSection(SPEC, art.entries[i].id);
    }
  }

  predicate SomeKind(ds: seq<Descriptor>, kind: Kind) {
    exists i :: 0 <= i < |ds| && ds[i].kind == kind
  }

  /** An opened file has the sections for strings and JSON exactly if a column has that kind, and no other optional
      section. */
  lemma {:induction false} OpenSections(
    file: bytes, crc: Artifact.Crc, codec: Codec, utf8: bytes -> bool, o: Opened, id: u32)
    requires Open(file, crc, codec, utf8) == Ok(o)
    ensures Artifact.Open(SPEC, crc, file).Ok?
    ensures FilePresent(Artifact.Open(SPEC, crc, file).value, id) <==>
      || 1 <= id <= 6
      || (id == 7 && SomeKind(o.columns, StringKind))
      || (8 <= id <= 9 && SomeKind(o.columns, JsonKind))
  {
    hide Artifact.Open, LoadIds, LoadDirectory, CountsValid, ColumnsValid, FilePresent;
    var art := Artifact.Open(SPEC, crc, file).value;
    EntriesKnown(file, crc, id);
    KindsSplit(o.columns);
    AssembledColumns(art, codec, utf8);
  }

  lemma {:induction false} AssembledColumns(art: Artifact.CheckedArtifact, codec: Codec, utf8: bytes -> bool)
    requires OpenArtifact(art, codec, utf8).Ok?
    ensures OptionalAgree(art) && KindsAgree(art.flags, OpenArtifact(art, codec, utf8).value.columns)
  {
    hide LoadIds, LoadDirectory, CountsValid, ColumnsValid, OptionalAgree, KindsAgree;
  }

  lemma {:induction false} KindsSplit(ds: seq<Descriptor>)
    ensures SomeKind(ds, StringKind) <==> exists i :: 0 <= i < |ds| && ds[i].kind.StringKind?
    ensures SomeKind(ds, JsonKind) <==> exists i :: 0 <= i < |ds| && ds[i].kind.JsonKind?
  {
    if i :| 0 <= i < |ds| && ds[i].kind.StringKind? {
      assert ds[i].kind == StringKind;
    }
    if i :| 0 <= i < |ds| && ds[i].kind.JsonKind? {
      assert ds[i].kind == JsonKind;
    }
  }
}
