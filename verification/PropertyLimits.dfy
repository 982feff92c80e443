/** Documents that can be written and not opened again (`graph_edgeprop.rs`): a table with one document is always
    built and written, and its file opens exactly when the document's value parses back. */
module PropertyLimits {
  import opened Wrappers
  import opened Bytes
  import opened Ordering
  import opened JsonValues
  import opened JsonParsing
  import opened Bitmaps
  import opened TaggedNeighbors
  import opened PropertyColumns
  import opened PropertyTable
  import opened PropertyDirectory
  import opened PropertyFile
  import Artifact
  import BuildIdentity
  import PropertyCodec

  function OneRow(id: u64, key: bytes, v: Json): seq<Row> {
    [Row(id, [Field(key, v)])]
  }

  /** A container under one key, in a document that is admitted. */
  ghost predicate Admitted(id: u64, key: bytes, v: Json, codec: Codec, utf8: bytes -> bool) {
    && Lawful(codec, utf8) && ValidHandle(id) && key != [] && utf8(key) && WellFormed(v, utf8) && Container(v)
    && |DocumentText([Field(key, v)], codec)| <= MAX_EDGE_PROPERTY_BYTES
  }

  // ----- The table -----

  lemma {:induction false} OneSorted(rows: seq<Row>)
    requires |rows| == 1
    ensures Sort(rows, RowKey) == rows && Ascending(rows, RowKey)
  {
    assert rows[1..] == [];
    assert Sort(rows[1..], RowKey) == [];
    assert Insert(rows[0], [], RowKey) == [rows[0]] + [];
  }

  lemma {:induction false} OneKey(id: u64, key: bytes, v: Json)
    ensures AllKeys(OneRow(id, key, v)) == [key]
  {
    var rows := OneRow(id, key, v);
    var doc := rows[0].doc;
    var none: seq<bytes> := [];
    assert rows[1..] == [] && doc[1..] == [];
    assert AllKeys(rows[1..]) == none;
    assert AddKeys(doc[1..], none) == none;
    assert Insert(key, none, Name) == [key] + none == [key];
  }

  lemma {:induction false} OneColumn(id: u64, key: bytes, v: Json)
    requires Container(v)
    ensures var c := ColumnOf(OneRow(id, key, v), key);
      c.key == key && c.kind.JsonKind? && c.values == [v] && |c.presence| == |c.nulls| == 1
  {
    hide Packed;
    var rows := OneRow(id, key, v);
    var cells := Cells(rows, key);
    assert CellOf(rows[0].doc, key) == Data(v);
    assert cells == [Data(v)] && cells[..0] == [];
    assert Values(cells) == Values(cells[..0]) + [v] == [v];
  }

  lemma {:induction false} OneBuilds(id: u64, key: bytes, v: Json, codec: Codec, utf8: bytes -> bool)
    requires Admitted(id, key, v, codec, utf8)
    ensures Build(OneRow(id, key, v), codec) == Ok(Table([id], [ColumnOf(OneRow(id, key, v), key)]))
  {
    hide Lawful, ColumnOf, DocumentText, Sort, AllKeys, Ascending;
    var rows := OneRow(id, key, v);
    OneSorted(rows);
    OneKey(id, key, v);
    assert Ids(rows) == [id];
    assert ColumnsOf(rows, [key]) == [ColumnOf(rows, key)];
  }

  // ----- The bytes of one column -----

  /** One JSON column with one value: a byte of each bitmap, two offsets and the text. */
  predicate SmallJson(e: Encoded) {
    && e.kind.JsonKind? && |e.presence| == |e.nulls| == 1 && |e.values| == 16 && e.count == 1
    && |e.data| <= MAX_EDGE_PROPERTY_BYTES && |e.key| <= MAX_EDGE_PROPERTY_BYTES
  }

  lemma {:induction false} OneEncodes(id: u64, key: bytes, v: Json, codec: Codec, utf8: bytes -> bool)
    requires Admitted(id, key, v, codec, utf8)
    ensures var c := ColumnOf(OneRow(id, key, v), key);
      ColumnSound(c, utf8) && SmallJson(EncodeColumn(c, codec, utf8))
  {
    hide Lawful, ColumnOf, PutWords, Ends, Canon;
    var c := ColumnOf(OneRow(id, key, v), key);
    OneColumn(id, key, v);
    ContainerKind(c.values, 0);
    assert c.values[0] == v;
    var items := Items(c.kind, c.values, codec);
    assert items[1..] == [];
    assert Flat(items[1..]) == [];
    assert Flat(items) == items[0];
    OneFits(id, key, v, codec, utf8);
  }

  lemma {:induction false} OneFits(id: u64, key: bytes, v: Json, codec: Codec, utf8: bytes -> bool)
    requires Admitted(id, key, v, codec, utf8)
    ensures |codec.show(Canon(v))| <= MAX_EDGE_PROPERTY_BYTES && |key| <= MAX_EDGE_PROPERTY_BYTES
  {
    hide Canon, DocumentText, WellFormed;
    var doc := [Field(key, v)];
    DocumentLength(doc, codec);
    FieldWithin(doc, codec, 0);
    assert |codec.show(Canon(v))| == |codec.show(v)| && |key| <= |codec.show(Str(key))|;
  }

  // ----- The directory and the sections -----

  lemma {:induction false} SoleContent(e: Encoded, a: Area)
    ensures Content([e], a) == Part(e, a) && Start(Parts([e], a), 0) == 0
  {
    hide Part;
    var parts := Parts([e], a);
    assert parts[1..] == [] && Flat(parts[1..]) == [];
    StartTotal(parts);
  }

  lemma {:induction false} SmallContent(e: Encoded, a: Area)
    requires SmallJson(e)
    ensures |Content([e], a)| <= MAX_EDGE_PROPERTY_BYTES
  {
    hide Content;
    SoleContent(e, a);
  }

  lemma {:induction false} SmallDirectory(e: Encoded)
    requires SmallJson(e)
    ensures DirectoryFits(DescribeAll([e]), 1) && |DirectoryBytes(DescribeAll([e]), 1)| <= 200000
  {
    hide Content;
    var ds := DescribeAll([e]);
    var d := ds[0];
    forall a ensures Start(Parts([e], a), 0) == 0 {
      SoleContent(e, a);
    }
    assert d.presenceOffset == d.nullOffset == d.valueOffset == d.dataOffset == 0;
    var keys := KeyList(ds);
    assert keys[1..] == [] && Flat(keys[1..]) == [];
    assert Flat(keys) == e.key;
    StartTotal(keys);
    assert RecordFits(ds, 1, 0);
    FlatWide(Records(ds, 1), RECORD_BYTES);
  }

  predicate SectionsSmall(sections: seq<Artifact.Section>) {
    forall i :: 0 <= i < |sections| ==> |sections[i].content| <= 200000
  }

  lemma {:induction false} SmallLaysOut(crc: Artifact.Crc, flags: u32, ordered: seq<Artifact.Section>)
    requires SectionsSmall(ordered) && 0 < |ordered| <= Artifact.MAX_SECTIONS
    ensures Artifact.AllPowersOfTwo([]) && Artifact.LayOut(SPEC, crc, flags, ordered, []).Ok?
  {
    hide Artifact.HeaderBytes, Artifact.SectionOffsets, Artifact.FileLen;
    Artifact.FileLenBound(Artifact.HeaderLen(|ordered|), ordered, [], 200000);
  }

  lemma {:induction false} OneSections(id: u64, directory: bytes, e: Encoded, crc: Artifact.Crc)
    requires SmallJson(e) && |directory| <= 200000
    ensures LengthsFit([e], 1)
    ensures Artifact.EncodeWithAlignments(SPEC, crc, FileFlags(HasStrings([e]), HasJson([e])),
      SectionsOf([id], directory, [e]), []).Ok?
  {
    hide Content, Artifact.LayOut, PutWords;
    forall a ensures |Content([e], a)| <= MAX_EDGE_PROPERTY_BYTES {
      SmallContent(e, a);
    }
    assert [e][0].kind.JsonKind?;
    assert HasJson([e]) && !HasStrings([e]);
    var sections := SectionsOf([id], directory, [e]);
    var ids := PutWords([id], 8);
    assert sections == [Artifact.Section(EDGE_IDS, 1, ids), Artifact.Section(DIRECTORY, 1, directory),
      AreaSection([e], Presences), AreaSection([e], NullMaps), AreaSection([e], ScalarData),
      AreaSection([e], StringOffsets), AreaSection([e], JsonOffsets), AreaSection([e], Jsons)];
    assert SectionsSmall(sections);
    SectionsAccepted(sections);
    Artifact.AlreadySorted(sections);
    SmallLaysOut(crc, 1, sections);
  }

  /** The six required sections and the two of the JSON columns. */
  lemma {:induction false} SectionsAccepted(sections: seq<Artifact.Section>)
    requires |sections| == 8
    requires forall i :: 0 <= i < 6 ==> sections[i].id == i + 1
    requires sections[6].id == 8 && sections[7].id == 9
    ensures Artifact.StrictIds(sections) && Artifact.Writable(SPEC, 1, sections, [])
  {
    assert SPEC.required == [1, 2, 3, 4, 5, 6] && SPEC.optional == [7, 8, 9] && SPEC.allowedFlags == 3;
    assert Artifact.MaskedBy(0, 1);
    forall i | 0 <= i < |SPEC.required| ensures Artifact.HasId(sections, SPEC.required[i]) {
      assert sections[i].id == SPEC.required[i];
    }
    forall i | 0 <= i < |sections| ensures Artifact.KnownSection(SPEC, sections[i].id) {
      assert i < 6 ==> sections[i].id == SPEC.required[i];
      assert i >= 6 ==> sections[i].id == SPEC.optional[i - 5];
    }
  }

  // ----- The theorem -----

  lemma {:induction false} OneWrites(id: u64, key: bytes, v: Json, codec: Codec, utf8: bytes -> bool, crc: Artifact.Crc)
    requires Admitted(id, key, v, codec, utf8)
    ensures Write(Table([id], [ColumnOf(OneRow(id, key, v), key)]), codec, utf8, crc).Ok?
  {
    hide Lawful, ColumnOf, ColumnSound, EncodeColumn, SmallJson, Artifact.EncodeWithAlignments, DirectoryBytes,
      DirectoryFits, LengthsFit, SectionsOf, Describe;
    var c := ColumnOf(OneRow(id, key, v), key);
    OneEncodes(id, key, v, codec, utf8);
    var e := EncodeColumn(c, codec, utf8);
    assert AllSound([c], utf8);
    assert EncodeColumns([c], codec, utf8) == [e];
    SmallDirectory(e);
    OneSections(id, DirectoryBytes(DescribeAll([e]), 1), e, crc);
  }

  /** A document with one container is built and written whatever it holds, and the file opens exactly when the
      container parses back. */
  lemma {:induction false} OneDocumentExact(
    id: u64, key: bytes, v: Json, codec: Codec, utf8: bytes -> bool, crc: Artifact.Crc)
    requires Admitted(id, key, v, codec, utf8)
    ensures var table := Build(OneRow(id, key, v), codec);
      && table.Ok? && Write(table.value, codec, utf8, crc).Ok?
      && (Open(Write(table.value, codec, utf8, crc).value, crc, codec, utf8).Ok? <==> ParsesBack(v))
  {
    hide Lawful, Build, Write, Open, ColumnOf, ParsesBack, WellFormed, DocumentText, Answers;
    var rows := OneRow(id, key, v);
    OneBuilds(id, key, v, codec, utf8);
    OneWrites(id, key, v, codec, utf8, crc);
    var t := Build(rows, codec).value;
    OneSound(key, v, utf8);
    PropertyRoundTrip(rows, codec, utf8, crc, t, Write(t, codec, utf8, crc).value);
    assert rows[0].doc[0].value == v;
  }

  lemma {:induction false} OneSound(key: bytes, v: Json, utf8: bytes -> bool)
    requires utf8(key) && WellFormed(v, utf8)
    ensures DocSound([Field(key, v)], utf8)
  {
    var doc := [Field(key, v)];
    assert doc[1..] == [];
    assert Distinct(doc, FieldKey);
  }

  /** 128 arrays inside each other are accepted, stored, and keep the file from opening; 127 do not. */
  lemma {:induction false} DeepValueBlocksOpen(
    id: u64, key: bytes, codec: Codec, utf8: bytes -> bool, crc: Artifact.Crc)
    requires Admitted(id, key, Nest(128), codec, utf8)
    ensures var table := Build(OneRow(id, key, Nest(128)), codec);
      && table.Ok? && Write(table.value, codec, utf8, crc).Ok?
      && Open(Write(table.value, codec, utf8, crc).value, crc, codec, utf8).Err?
    ensures ParsesBack(Nest(127))
  {
    hide Admitted, Build, Write, Open, Nest, Depth, Unmarked, OneRow;
    NestDepth(128);
    NestDepth(127);
    OneDocumentExact(id, key, Nest(128), codec, utf8, crc);
  }

  /** So does an object whose only key is the marker of embedded text. */
  lemma {:induction false} MarkedValueBlocksOpen(
    id: u64, key: bytes, inner: Json, codec: Codec, utf8: bytes -> bool, crc: Artifact.Crc)
    requires Admitted(id, key, Obj([Field(RAW_KEY, inner)]), codec, utf8)
    ensures var table := Build(OneRow(id, key, Obj([Field(RAW_KEY, inner)])), codec);
      && table.Ok? && Write(table.value, codec, utf8, crc).Ok?
      && Open(Write(table.value, codec, utf8, crc).value, crc, codec, utf8).Err?
  {
    hide Admitted, Build, Write, Open, Depth, OneRow, Less;
    var fields := [Field(RAW_KEY, inner)];
    assert fields[0].key == RAW_KEY;
    LessTotal(RAW_KEY, RAW_KEY);
    assert Marked(fields);
    OneDocumentExact(id, key, Obj(fields), codec, utf8, crc);
  }

  // ----- The input exists -----

  lemma {:induction false} NestCanon(n: nat)
    ensures Canon(Nest(n)) == Nest(n)
  {
    if n > 1 {
      NestCanon(n - 1);
      var items := [Nest(n - 1)];
      CanonArr(items);
      assert CanonItems(items) == items;
    } else {
      CanonArr([]);
      assert CanonItems([]) == [];
    }
  }

  lemma {:induction false} NestStream(n: nat, text: BuildIdentity.NumberText)
    requires n > 0
    ensures |BuildIdentity.Raw(Nest(n), text)| == 9 * n
  {
    var v := Nest(n);
    if n > 1 {
      NestStream(n - 1, text);
      assert BuildIdentity.ItemsFrom(v, 1, text) == [];
      assert BuildIdentity.ItemsFrom(v, 0, text) == BuildIdentity.Raw(Nest(n - 1), text) + [];
    } else {
      assert BuildIdentity.ItemsFrom(v, 0, text) == [];
    }
  }

  lemma {:induction false} NestWellFormed(n: nat, utf8: bytes -> bool)
    ensures WellFormed(Nest(n), utf8)
  {
    if n > 1 {
      NestWellFormed(n - 1, utf8);
    }
  }

  /** Under the codec of `PropertyCodec` the deep document is a short one, so it is admitted. */
  lemma {:induction false} DeepIsAdmitted(
    id: u64, key: byte, text: BuildIdentity.NumberText, utf8: bytes -> bool, codec: Codec)
    requires BuildIdentity.Lawful(text) && ValidHandle(id) && utf8([key])
    requires forall v :: codec.show(v) == BuildIdentity.JsonStream(v, text)
    requires forall s :: codec.parse(s) == PropertyCodec.ParseText(s, text, utf8)
    ensures Admitted(id, [key], Nest(128), codec, utf8)
  {
    hide Lawful, BuildIdentity.Lawful, Canon, BuildIdentity.Raw, PropertyCodec.ParseText, Nest, WellFormed,
      DocumentText;
    var v := Nest(128);
    PropertyCodec.LawfulCodec(text, utf8, codec);
    NestCanon(128);
    NestStream(128, text);
    NestWellFormed(128, utf8);
    NestIsArray(128);
    KeyStream(key, text);
    var doc := [Field([key], v)];
    DocumentLength(doc, codec);
    assert doc[1..] == [];
    assert FieldsLen(doc[1..], codec) == 0;
    assert |codec.show(v)| == 1152;
  }

  lemma {:induction false} NestIsArray(n: nat)
    ensures Nest(n).Arr?
  {
  }

  lemma {:induction false} KeyStream(key: byte, text: BuildIdentity.NumberText)
    ensures |BuildIdentity.JsonStream(Str([key]), text)| == 10
  {
    assert Canon(Str([key])) == Str([key]);
  }
}
