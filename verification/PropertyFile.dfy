/** The property file `edgeprop.gdx` (`write`, `open`, `find_edge` and `read_properties` in `graph_edgeprop.rs`):
    the columns side by side in the sections of one artifact, and a document read back from them. */
module PropertyFile {
  import opened Wrappers
  import opened Bytes
  import opened Ordering
  import opened JsonValues
  import opened JsonParsing
  import opened Bitmaps
  import opened TaggedNeighbors
  import opened PropertyColumns
  import opened PropertyTable
  import opened PropertyDirectory
  import Artifact

  const EDGE_IDS: u32 := 1
  const DIRECTORY: u32 := 2

  const SPEC: Artifact.Spec :=
    Artifact.Spec([71, 65, 85, 83, 69, 80, 48, 50], 3, [1, 2, 3, 4, 5, 6], [7, 8, 9], 0xFFFF_FFFF_FFFF_FFFF)

  /** The sections that hold column bytes. */
  datatype Area = Presences | NullMaps | ScalarData | StringOffsets | Strings | JsonOffsets | Jsons

  function AreaId(a: Area): u32 {
    match a
    case Presences => 3
    case NullMaps => 4
    case ScalarData => 5
    case StringOffsets => 6
    case Strings => 7
    case JsonOffsets => 8
    case Jsons => 9
  }

  function ValueArea(kind: Kind): Area {
    if IsScalar(kind) then ScalarData else if kind.StringKind? then StringOffsets else JsonOffsets
  }

  function DataArea(kind: Kind): Area
    requires !IsScalar(kind)
  {
    if kind.StringKind? then Strings else Jsons
  }

  // ----- The writer -----

  /** A column ready to be laid out. */
  datatype Encoded = Encoded(key: bytes, kind: Kind, presence: bytes, nulls: bytes, values: bytes, data: bytes,
    count: nat)

  predicate AllSound(cs: seq<Column>, utf8: bytes -> bool) {
    forall i :: 0 <= i < |cs| ==> ColumnSound(cs[i], utf8)
  }

  function EncodeColumn(c: Column, codec: Codec, utf8: bytes -> bool): Encoded
    requires ColumnSound(c, utf8)
  {
    var (values, data) := ColumnBytes(c, codec, utf8);
    Encoded(c.key, c.kind, c.presence, c.nulls, values, data, |c.values|)
  }

  function EncodeColumns(cs: seq<Column>, codec: Codec, utf8: bytes -> bool): (es: seq<Encoded>)
    requires AllSound(cs, utf8)
    ensures |es| == |cs| && forall i :: 0 <= i < |cs| ==> es[i] == EncodeColumn(cs[i], codec, utf8)
  {
    seq(|cs|, i requires 0 <= i < |cs| => EncodeColumn(cs[i], codec, utf8))
  }

  /** What a column adds to a section. */
  function Part(e: Encoded, a: Area): bytes {
    if a == Presences then e.presence
    else if a == NullMaps then e.nulls
    else if a == ValueArea(e.kind) then e.values
    else if !IsScalar(e.kind) && a == DataArea(e.kind) then e.data
    else []
  }

  function Parts(es: seq<Encoded>, a: Area): (r: seq<bytes>)
    ensures |r| == |es| && forall i :: 0 <= i < |es| ==> r[i] == Part(es[i], a)
  {
    seq(|es|, i requires 0 <= i < |es| => Part(es[i], a))
  }

  function Content(es: seq<Encoded>, a: Area): bytes {
    Flat(Parts(es, a))
  }

  function Describe(es: seq<Encoded>, i: nat): Descriptor
    requires i < |es|
  {
    var e := es[i];
    Descriptor(e.key, e.kind,
      Start(Parts(es, Presences), i), |e.presence|, Start(Parts(es, NullMaps), i), |e.nulls|,
      Start(Parts(es, ValueArea(e.kind)), i), |e.values|,
      if IsScalar(e.kind) then 0 else Start(Parts(es, DataArea(e.kind)), i), if IsScalar(e.kind) then 0 else |e.data|,
      e.count)
  }

  function DescribeAll(es: seq<Encoded>): (ds: seq<Descriptor>)
    ensures |ds| == |es| && forall i :: 0 <= i < |es| ==> ds[i] == Describe(es, i)
  {
    seq(|es|, i requires 0 <= i < |es| => Describe(es, i))
  }

  predicate HasStrings(es: seq<Encoded>) {
    exists i :: 0 <= i < |es| && es[i].kind.StringKind?
  }

  predicate HasJson(es: seq<Encoded>) {
    exists i :: 0 <= i < |es| && es[i].kind.JsonKind?
  }

  function FileFlags(strings: bool, json: bool): u32 {
    (if json then 1 else 0) + (if strings then 2 else 0)
  }

  /** Every length is a machine integer. */
  predicate LengthsFit(es: seq<Encoded>, rows: nat) {
    rows < U64_LIMIT && |es| < U64_LIMIT && AreasFit(es)
  }

  predicate AreasFit(es: seq<Encoded>) {
    forall a :: |Content(es, a)| < U64_LIMIT
  }

  function AreaSection(es: seq<Encoded>, a: Area): Artifact.Section
    requires |es| < U64_LIMIT && AreasFit(es)
  {
    var content := Content(es, a);
    var count := if a == Presences || a == NullMaps then |es|
                 else if a == StringOffsets || a == JsonOffsets then |content| / 8 else |content|;
    Artifact.Section(AreaId(a), count, content)
  }

  function SectionsOf(ids: seq<u64>, directory: bytes, es: seq<Encoded>): seq<Artifact.Section>
    requires LengthsFit(es, |ids|)
  {
    [Artifact.Section(EDGE_IDS, |ids|, PutWords(ids, 8)), Artifact.Section(DIRECTORY, |es|, directory),
     AreaSection(es, Presences), AreaSection(es, NullMaps), AreaSection(es, ScalarData), AreaSection(es, StringOffsets)]
    + (if HasStrings(es) then [AreaSection(es, Strings)] else [])
    + (if HasJson(es) then [AreaSection(es, JsonOffsets), AreaSection(es, Jsons)] else [])
  }

  /** A column that holds another type than its kind is refused. */
  function Write(t: Table, codec: Codec, utf8: bytes -> bool, crc: Artifact.Crc): Result<bytes> {
    if !AllSound(t.columns, utf8) then Err else
    var es := EncodeColumns(t.columns, codec, utf8);
    var directory :- EncodeDirectory(DescribeAll(es), |t.edgeIds|);
    if LengthsFit(es, |t.edgeIds|)
    then Artifact.EncodeWithAlignments(SPEC, crc, FileFlags(HasStrings(es), HasJson(es)),
      SectionsOf(t.edgeIds, directory, es), [])
    else Err
  }

  // ----- The loader -----

  /** What an opened file holds: the ids, the column sections (an absent one empty), the descriptors and the
      rank checkpoints of every column. */
  datatype Opened = Opened(ids: seq<u64>, areas: Area -> bytes, columns: seq<Descriptor>, ranks: seq<seq<nat>>)

  predicate IdsValid(ids: seq<u64>) {
    && (forall i :: 0 <= i < |ids| ==> ValidHandle(ids[i]))
    && forall i, j :: 0 <= i < j < |ids| ==> ids[i] < ids[j]
  }

  /** How far a column moves a section's cursor. */
  function Span(d: Descriptor, a: Area): nat {
    if a == Presences then d.presenceLen
    else if a == NullMaps then d.nullLen
    else if a == ValueArea(d.kind) then d.valueLen
    else if !IsScalar(d.kind) && a == DataArea(d.kind) then d.dataLen
    else 0
  }

  function Cursor(ds: seq<Descriptor>, a: Area, i: nat): nat
    requires i <= |ds|
  {
    if i == 0 then 0 else Cursor(ds, a, i - 1) + Span(ds[i - 1], a)
  }

  predicate Inside(s: bytes, offset: nat, len: nat) {
    offset + len <= |s|
  }

  /** A column's bitmaps are where the cursors stand, are valid, and count its values. */
  predicate BitmapsOk(areas: Area -> bytes, d: Descriptor, presenceCursor: nat, nullCursor: nat, rows: nat) {
    && d.presenceOffset == presenceCursor && d.presenceLen == ByteLen(rows)
    && d.nullOffset == nullCursor && d.nullLen == ByteLen(rows)
    && Inside(areas(Presences), d.presenceOffset, d.presenceLen) && Inside(areas(NullMaps), d.nullOffset, d.nullLen)
    && BitmapsValid(PresenceOf(areas, d), NullsOf(areas, d), rows)
    && Rank(PresenceOf(areas, d), NullsOf(areas, d), 8 * d.presenceLen) == d.valueCount
  }

  predicate BitmapsAt(areas: Area -> bytes, ds: seq<Descriptor>, i: nat, rows: nat)
    requires i < |ds|
  {
    BitmapsOk(areas, ds[i], Cursor(ds, Presences, i), Cursor(ds, NullMaps, i), rows)
  }

  /** The checkpoints belong to the column's bitmaps. */
  predicate RanksAt(areas: Area -> bytes, ds: seq<Descriptor>, i: nat, rows: nat, ranks: seq<nat>)
    requires i < |ds|
  {
    BitmapsAt(areas, ds, i, rows) && Checkpointed(PresenceOf(areas, ds[i]), NullsOf(areas, ds[i]), ranks)
  }

  function PresenceOf(areas: Area -> bytes, d: Descriptor): (s: bytes)
    requires Inside(areas(Presences), d.presenceOffset, d.presenceLen)
    ensures |s| == d.presenceLen
  {
    areas(Presences)[d.presenceOffset..d.presenceOffset + d.presenceLen]
  }

  function NullsOf(areas: Area -> bytes, d: Descriptor): (s: bytes)
    requires Inside(areas(NullMaps), d.nullOffset, d.nullLen)
    ensures |s| == d.nullLen
  {
    areas(NullMaps)[d.nullOffset..d.nullOffset + d.nullLen]
  }

  function ValuesOf(areas: Area -> bytes, d: Descriptor): (s: bytes)
    requires Inside(areas(ValueArea(d.kind)), d.valueOffset, d.valueLen)
    ensures |s| == d.valueLen
  {
    areas(ValueArea(d.kind))[d.valueOffset..d.valueOffset + d.valueLen]
  }

  function DataOf(areas: Area -> bytes, d: Descriptor): bytes
    requires !IsScalar(d.kind) ==> Inside(areas(DataArea(d.kind)), d.dataOffset, d.dataLen)
  {
    if IsScalar(d.kind) then [] else areas(DataArea(d.kind))[d.dataOffset..d.dataOffset + d.dataLen]
  }

  /** A column's values are where the cursors stand and every one of them is readable. */
  predicate ValuesOk(
    areas: Area -> bytes, d: Descriptor, valueCursor: nat, dataCursor: nat, codec: Codec, utf8: bytes -> bool) {
    && d.valueOffset == valueCursor && Inside(areas(ValueArea(d.kind)), d.valueOffset, d.valueLen)
    && if IsScalar(d.kind)
       then d.valueLen == d.valueCount * ScalarWidth(d.kind) && d.dataOffset == 0 && d.dataLen == 0
         && ScalarBytesValid(d.kind, ValuesOf(areas, d))
       else
         && d.valueLen == 8 * (d.valueCount + 1)
         && d.dataOffset == dataCursor && Inside(areas(DataArea(d.kind)), d.dataOffset, d.dataLen)
         && OffsetsValid(d.kind, ValuesOf(areas, d), DataOf(areas, d), d.valueCount, codec, utf8)
  }

  function DataCursor(ds: seq<Descriptor>, i: nat): nat
    requires i < |ds|
  {
    if IsScalar(ds[i].kind) then 0 else Cursor(ds, DataArea(ds[i].kind), i)
  }

  predicate ValuesAt(areas: Area -> bytes, ds: seq<Descriptor>, i: nat, codec: Codec, utf8: bytes -> bool)
    requires i < |ds|
  {
    ValuesOk(areas, ds[i], Cursor(ds, ValueArea(ds[i].kind), i), DataCursor(ds, i), codec, utf8)
  }

  /** `validate_columns`: every column in its place, and no byte without an owner. */
  predicate ColumnsValid(areas: Area -> bytes, ds: seq<Descriptor>, rows: nat, codec: Codec, utf8: bytes -> bool) {
    && (forall i :: 0 <= i < |ds| ==> BitmapsAt(areas, ds, i, rows) && ValuesAt(areas, ds, i, codec, utf8))
    && forall a :: Cursor(ds, a, |ds|) == |areas(a)|
  }

  function Checkpoints(presence: bytes, nulls: bytes): (r: seq<nat>)
    requires |presence| == |nulls|
    ensures Checkpointed(presence, nulls, r)
  {
    seq(1 + (|presence| + 4095) / 4096,
      b requires 0 <= b < 1 + (|presence| + 4095) / 4096 => Rank(presence, nulls, 8 * BlockStart(|presence|, b)))
  }

  function AllCheckpoints(areas: Area -> bytes, ds: seq<Descriptor>, rows: nat): (r: seq<seq<nat>>)
    requires forall i :: 0 <= i < |ds| ==> BitmapsAt(areas, ds, i, rows)
    ensures |r| == |ds| && forall i :: 0 <= i < |ds| ==> RanksAt(areas, ds, i, rows, r[i])
  {
    seq(|ds|, i requires 0 <= i < |ds| =>
      assert BitmapsAt(areas, ds, i, rows);
      Checkpoints(PresenceOf(areas, ds[i]), NullsOf(areas, ds[i])))
  }

  /** One running position a section. */
  datatype Cursors = Cursors(presence: nat, nulls: nat, scalar: nat, stringOffset: nat, strings: nat, jsonOffset: nat,
    jsons: nat)

  function CursorOf(c: Cursors, a: Area): nat {
    match a
    case Presences => c.presence
    case NullMaps => c.nulls
    case ScalarData => c.scalar
    case StringOffsets => c.stringOffset
    case Strings => c.strings
    case JsonOffsets => c.jsonOffset
    case Jsons => c.jsons
  }

  ghost predicate CursorsAt(c: Cursors, ds: seq<Descriptor>, i: nat)
    requires i <= |ds|
  {
    forall a :: CursorOf(c, a) == Cursor(ds, a, i)
  }

  /** The column loop of `validate_columns`: the cursors advance and every column leaves its checkpoints. */
  method ValidateColumns(areas: Area -> bytes, ds: seq<Descriptor>, rows: nat, codec: Codec, utf8: bytes -> bool)
    returns (ok: bool, ranks: seq<seq<nat>>)
    ensures ok == ColumnsValid(areas, ds, rows, codec, utf8)
    ensures ok ==> |ranks| == |ds| && forall i :: 0 <= i < |ds| ==> RanksAt(areas, ds, i, rows, ranks[i])
  {
    hide BitmapsOk, ValuesOk, Checkpointed, Cursor, CursorOf, ValueArea, DataArea, RanksAt;
    var c := Cursors(0, 0, 0, 0, 0, 0, 0);
    ranks := [];
    CursorsStart(c, ds);
    for i := 0 to |ds|
      invariant CursorsAt(c, ds, i)
      invariant forall k :: 0 <= k < i ==> BitmapsAt(areas, ds, k, rows) && ValuesAt(areas, ds, k, codec, utf8)
      invariant |ranks| == i && forall k :: 0 <= k < i ==> RanksAt(areas, ds, k, rows, ranks[k])
    {
      var d := ds[i];
      CursorsRead(c, ds, i);
      var fits, checkpoints := ValidateColumnBitmaps(areas, d, c.presence, c.nulls, rows);
      if !fits {
        assert !BitmapsAt(areas, ds, i, rows);
        return false, [];
      }
      RanksMean(areas, ds, i, rows, checkpoints);
      ranks := ranks + [checkpoints];
      var readable, next := ValidateValues(areas, d, c, codec, utf8);
      if !readable {
        assert !ValuesAt(areas, ds, i, codec, utf8);
        return false, [];
      }
      CursorsStep(c, next, ds, i);
      c := next;
    }
    ok :=
      && c.presence == |areas(Presences)| && c.nulls == |areas(NullMaps)| && c.scalar == |areas(ScalarData)|
      && c.stringOffset == |areas(StringOffsets)| && c.strings == |areas(Strings)|
      && c.jsonOffset == |areas(JsonOffsets)| && c.jsons == |areas(Jsons)|;
    CursorsEnd(c, ds, areas);
  }

  lemma {:induction false} CursorsStart(c: Cursors, ds: seq<Descriptor>)
    requires c == Cursors(0, 0, 0, 0, 0, 0, 0)
    ensures CursorsAt(c, ds, 0)
  {
  }

  lemma {:induction false} CursorsRead(c: Cursors, ds: seq<Descriptor>, i: nat)
    requires i < |ds| && CursorsAt(c, ds, i)
    ensures c.presence == Cursor(ds, Presences, i) && c.nulls == Cursor(ds, NullMaps, i)
    ensures CursorOf(c, ValueArea(ds[i].kind)) == Cursor(ds, ValueArea(ds[i].kind), i)
    ensures !IsScalar(ds[i].kind) ==> CursorOf(c, DataArea(ds[i].kind)) == DataCursor(ds, i)
  {
    hide Cursor;
    assert CursorOf(c, Presences) == Cursor(ds, Presences, i) && CursorOf(c, NullMaps) == Cursor(ds, NullMaps, i);
  }

  lemma {:induction false} CursorsStep(c: Cursors, next: Cursors, ds: seq<Descriptor>, i: nat)
    requires i < |ds| && CursorsAt(c, ds, i)
    requires forall a :: CursorOf(next, a) == CursorOf(c, a) + Span(ds[i], a)
    ensures CursorsAt(next, ds, i + 1)
  {
    hide CursorOf, Span;
  }

  lemma {:induction false} CursorsEnd(c: Cursors, ds: seq<Descriptor>, areas: Area -> bytes)
    requires CursorsAt(c, ds, |ds|)
    ensures (forall a :: Cursor(ds, a, |ds|) == |areas(a)|) <==>
      && c.presence == |areas(Presences)| && c.nulls == |areas(NullMaps)| && c.scalar == |areas(ScalarData)|
      && c.stringOffset == |areas(StringOffsets)| && c.strings == |areas(Strings)|
      && c.jsonOffset == |areas(JsonOffsets)| && c.jsons == |areas(Jsons)|
  {
    hide Cursor;
    assert CursorOf(c, Presences) == c.presence && CursorOf(c, NullMaps) == c.nulls
      && CursorOf(c, ScalarData) == c.scalar;
    assert CursorOf(c, StringOffsets) == c.stringOffset && CursorOf(c, Strings) == c.strings;
    assert CursorOf(c, JsonOffsets) == c.jsonOffset && CursorOf(c, Jsons) == c.jsons;
  }

  lemma {:induction false} RanksMean(
    areas: Area -> bytes, ds: seq<Descriptor>, i: nat, rows: nat, checkpoints: seq<nat>)
    requires i < |ds| && BitmapsAt(areas, ds, i, rows)
    requires Checkpointed(PresenceOf(areas, ds[i]), NullsOf(areas, ds[i]), checkpoints)
    ensures RanksAt(areas, ds, i, rows, checkpoints)
  {
  }

  /** The kind decides which cursors a column must meet and moves. */
  method ValidateValues(areas: Area -> bytes, d: Descriptor, c: Cursors, codec: Codec, utf8: bytes -> bool)
    returns (ok: bool, next: Cursors)
    requires d.presenceLen == d.nullLen
    ensures ok == ValuesOk(areas, d, CursorOf(c, ValueArea(d.kind)), if IsScalar(d.kind) then 0
      else CursorOf(c, DataArea(d.kind)), codec, utf8)
    ensures forall a :: CursorOf(next, a) == CursorOf(c, a) + Span(d, a)
  {
    hide ValuesOk;
    next := c.(presence := c.presence + d.presenceLen, nulls := c.nulls + d.nullLen);
    match d.kind {
      case StringKind =>
        ok := ValuesOk(areas, d, c.stringOffset, c.strings, codec, utf8);
        next := next.(stringOffset := c.stringOffset + d.valueLen, strings := c.strings + d.dataLen);
      case JsonKind =>
        ok := ValuesOk(areas, d, c.jsonOffset, c.jsons, codec, utf8);
        next := next.(jsonOffset := c.jsonOffset + d.valueLen, jsons := c.jsons + d.dataLen);
      case _ =>
        ok := ValuesOk(areas, d, c.scalar, 0, codec, utf8);
        next := next.(scalar := c.scalar + d.valueLen);
    }
  }

  method ValidateColumnBitmaps(
    areas: Area -> bytes, d: Descriptor, presence: nat, nulls: nat, rows: nat) returns (ok: bool, checkpoints: seq<nat>)
    ensures ok == BitmapsOk(areas, d, presence, nulls, rows)
    ensures ok ==>
      && d.presenceLen == d.nullLen && Inside(areas(Presences), d.presenceOffset, d.presenceLen)
      && Inside(areas(NullMaps), d.nullOffset, d.nullLen)
      && Checkpointed(PresenceOf(areas, d), NullsOf(areas, d), checkpoints)
  {
    hide BitmapsValid, Rank, Checkpointed;
    if d.presenceOffset != presence || d.presenceLen != ByteLen(rows) || d.nullOffset != nulls
      || d.nullLen != ByteLen(rows) {
      return false, [];
    }
    if !Inside(areas(Presences), d.presenceOffset, d.presenceLen) || !Inside(areas(NullMaps), d.nullOffset, d.nullLen) {
      return false, [];
    }
    var valid, points, count := ValidateBitmaps(PresenceOf(areas, d), NullsOf(areas, d), rows);
    return valid && count == d.valueCount, points;
  }

  predicate FilePresent(art: Artifact.CheckedArtifact, id: u32) {
    Artifact.Find(art.entries, id).Some?
  }

  function Fetch(art: Artifact.CheckedArtifact, id: u32): bytes {
    if Artifact.ReadSection(art, id).Ok? then Artifact.ReadSection(art, id).value else []
  }

  function Areas(art: Artifact.CheckedArtifact): Area -> bytes {
    a => Fetch(art, AreaId(a))
  }

  predicate CountIs(art: Artifact.CheckedArtifact, a: Area, count: nat) {
    FilePresent(art, AreaId(a)) ==> Artifact.Find(art.entries, AreaId(a)).value.elemCount == count
  }

  /** `validate_section_counts`, and the agreement of flags, optional sections and column kinds. */
  predicate CountsValid(art: Artifact.CheckedArtifact, ds: seq<Descriptor>) {
    && CountIs(art, Presences, |ds|) && CountIs(art, NullMaps, |ds|)
    && CountIs(art, ScalarData, |Fetch(art, 5)|) && CountIs(art, Strings, |Fetch(art, 7)|)
    && CountIs(art, Jsons, |Fetch(art, 9)|)
    && EightTimes(art, StringOffsets) && EightTimes(art, JsonOffsets)
  }

  predicate EightTimes(art: Artifact.CheckedArtifact, a: Area) {
    FilePresent(art, AreaId(a)) ==> 8 * Artifact.Find(art.entries, AreaId(a)).value.elemCount == |Fetch(art, AreaId(a))|
  }

  predicate OptionalAgree(art: Artifact.CheckedArtifact) {
    && FilePresent(art, 7) == (art.flags / 2 % 2 == 1)
    && FilePresent(art, 8) == (art.flags % 2 == 1)
    && FilePresent(art, 9) == (art.flags % 2 == 1)
  }

  predicate KindsAgree(flags: u32, ds: seq<Descriptor>) {
    && (flags / 2 % 2 == 1) == (exists i :: 0 <= i < |ds| && ds[i].kind.StringKind?)
    && (flags % 2 == 1) == (exists i :: 0 <= i < |ds| && ds[i].kind.JsonKind?)
  }

  function LoadIds(art: Artifact.CheckedArtifact): Result<seq<u64>> {
    if !FilePresent(art, EDGE_IDS) then Err else
    var content :- Artifact.ReadSection(art, EDGE_IDS);
    :- Need(|content| == 8 * Artifact.Find(art.entries, EDGE_IDS).value.elemCount);
    PowValues();
    var ids: seq<u64> := Words(content, 8);
    :- Need(IdsValid(ids));
    Ok(ids)
  }

  function LoadDirectory(art: Artifact.CheckedArtifact, rows: nat, utf8: bytes -> bool): Result<seq<Descriptor>> {
    if !FilePresent(art, DIRECTORY) then Err else
    var content :- Artifact.ReadSection(art, DIRECTORY);
    DecodeDirectory(content, Artifact.Find(art.entries, DIRECTORY).value.elemCount, rows, utf8)
  }

  function Assemble(ids: seq<u64>, areas: Area -> bytes, ds: seq<Descriptor>, codec: Codec, utf8: bytes -> bool): Opened
    requires ColumnsValid(areas, ds, |ids|, codec, utf8)
  {
    Opened(ids, areas, ds, AllCheckpoints(areas, ds, |ids|))
  }

  function OpenArtifact(art: Artifact.CheckedArtifact, codec: Codec, utf8: bytes -> bool): Result<Opened> {
    if !OptionalAgree(art) then Err else
    var ids :- LoadIds(art);
    var ds :- LoadDirectory(art, |ids|, utf8);
    if CountsValid(art, ds) && ColumnsValid(Areas(art), ds, |ids|, codec, utf8) && KindsAgree(art.flags, ds)
    then Ok(Assemble(ids, Areas(art), ds, codec, utf8))
    else Err
  }

  function Open(file: bytes, crc: Artifact.Crc, codec: Codec, utf8: bytes -> bool): Result<Opened> {
    var art := Artifact.Open(SPEC, crc, file);
    if art.Err? then Err else OpenArtifact(art.value, codec, utf8)
  }

  /** Whatever opens is valid. */
  lemma {:induction false} OpenIsValid(file: bytes, crc: Artifact.Crc, codec: Codec, utf8: bytes -> bool)
    requires Open(file, crc, codec, utf8).Ok?
    ensures OpenedValid(Open(file, crc, codec, utf8).value, codec, utf8)
  {
    hide ColumnsValid, CountsValid, KindsAgree, OptionalAgree, IdsValid, Artifact.Open, LoadDirectory, RanksAt;
    var art := Artifact.Open(SPEC, crc, file).value;
    var ids := LoadIds(art).value;
    IdsChecked(art);
    var ds := LoadDirectory(art, |ids|, utf8).value;
    Assembled(ids, Areas(art), ds, codec, utf8);
  }

  lemma {:induction false} IdsChecked(art: Artifact.CheckedArtifact)
    requires LoadIds(art).Ok?
    ensures IdsValid(LoadIds(art).value)
  {
    hide Words, IdsValid;
  }

  lemma {:induction false} Assembled(
    ids: seq<u64>, areas: Area -> bytes, ds: seq<Descriptor>, codec: Codec, utf8: bytes -> bool)
    requires ColumnsValid(areas, ds, |ids|, codec, utf8) && IdsValid(ids)
    ensures OpenedValid(Assemble(ids, areas, ds, codec, utf8), codec, utf8)
  {
    hide RanksAt, BitmapsAt, ValuesAt, Cursor;
  }

  /** What opening has checked. */
  ghost predicate OpenedValid(o: Opened, codec: Codec, utf8: bytes -> bool) {
    && IdsValid(o.ids) && ColumnsValid(o.areas, o.columns, |o.ids|, codec, utf8)
    && |o.ranks| == |o.columns| && forall i :: 0 <= i < |o.columns| ==>
      RanksAt(o.areas, o.columns, i, |o.ids|, o.ranks[i])
  }

  // ----- Lookups -----

  /** `find_edge`: binary search over the ascending ids. */
  method FindEdge(o: Opened, id: u64) returns (r: Result<Option<nat>>)
    requires IdsValid(o.ids)
    ensures r.Ok? <==> ValidHandle(id)
    ensures r.Ok? && r.value.Some? ==> r.value.value < |o.ids| && o.ids[r.value.value] == id
    ensures r.Ok? && r.value.None? ==> id !in o.ids
  {
    if !ValidHandle(id) {
      return Err;
    }
    var low, high := 0, |o.ids|;
    while low < high
      invariant low <= high <= |o.ids|
      invariant forall k :: 0 <= k < low ==> o.ids[k] < id
      invariant forall k :: high <= k < |o.ids| ==> id < o.ids[k]
    {
      var mid := low + (high - low) / 2;
      if o.ids[mid] < id {
        low := mid + 1;
      } else if id < o.ids[mid] {
        high := mid;
      } else {
        return Ok(Some(mid));
      }
    }
    return Ok(None);
  }

  /** The value of column `i` in a row that is present there. */
  function CellAt(o: Opened, i: nat, row: nat, codec: Codec, utf8: bytes -> bool): Result<Json>
    requires OpenedValid(o, codec, utf8) && i < |o.columns| && row < |o.ids|
  {
    assert BitmapsAt(o.areas, o.columns, i, |o.ids|) && ValuesAt(o.areas, o.columns, i, codec, utf8);
    var d := o.columns[i];
    var presence, nulls := PresenceOf(o.areas, d), NullsOf(o.areas, d);
    if BitAt(nulls, row) then Ok(Null)
    else ReadValue(d.kind, ValuesOf(o.areas, d), DataOf(o.areas, d), d.valueCount, Rank(presence, nulls, row), codec,
      utf8)
  }

  predicate PresentAt(o: Opened, i: nat, row: nat, codec: Codec, utf8: bytes -> bool)
    requires OpenedValid(o, codec, utf8) && i < |o.columns| && row < |o.ids|
  {
    assert BitmapsAt(o.areas, o.columns, i, |o.ids|);
    BitAt(PresenceOf(o.areas, o.columns[i]), row)
  }

  /** The rest of a document from column `i` on, with its running length. */
  function ReadFrom(
    o: Opened, i: nat, row: nat, soFar: seq<Field>, size: nat, codec: Codec, utf8: bytes -> bool): Result<seq<Field>>
    requires OpenedValid(o, codec, utf8) && i <= |o.columns| && row < |o.ids|
    decreases |o.columns| - i
  {
    if i == |o.columns| then Ok(soFar)
    else if !PresentAt(o, i, row, codec, utf8) then ReadFrom(o, i + 1, row, soFar, size, codec, utf8)
    else if |o.columns[i].key| > MAX_EDGE_PROPERTY_BYTES then Err
    else
      var value :- CellAt(o, i, row, codec, utf8);
      var field := Field(o.columns[i].key, value);
      var size' := size + FieldLen(field, codec) + (if soFar == [] then 0 else 1);
      if size' > MAX_EDGE_PROPERTY_BYTES then Err
      else ReadFrom(o, i + 1, row, soFar + [field], size', codec, utf8)
  }

  function ReadDocument(o: Opened, row: nat, codec: Codec, utf8: bytes -> bool): Result<seq<Field>>
    requires OpenedValid(o, codec, utf8)
  {
    if row >= |o.ids| then Err else ReadFrom(o, 0, row, [], 2, codec, utf8)
  }

  /** `read_properties`: the column loop, with ranks from the checkpoints. */
  method ReadProperties(o: Opened, row: nat, codec: Codec, utf8: bytes -> bool) returns (r: Result<seq<Field>>)
    requires OpenedValid(o, codec, utf8)
    ensures r == ReadDocument(o, row, codec, utf8)
  {
    hide ReadValue, Rank, BitAt, Checkpointed, ColumnsValid, ValuesAt;
    if row >= |o.ids| {
      return Err;
    }
    var properties: seq<Field> := [];
    var size: nat := 2;
    for i := 0 to |o.columns|
      invariant ReadFrom(o, i, row, properties, size, codec, utf8) == ReadDocument(o, row, codec, utf8)
    {
      var d := o.columns[i];
      assert RanksAt(o.areas, o.columns, i, |o.ids|, o.ranks[i]);
      var presence, nulls := PresenceOf(o.areas, d), NullsOf(o.areas, d);
      if !BitAt(presence, row) {
        continue;
      }
      if |d.key| > MAX_EDGE_PROPERTY_BYTES {
        return Err;
      }
      var value: Result<Json> := Ok(Null);
      if !BitAt(nulls, row) {
        var index := NonNullRank(presence, nulls, o.ranks[i], row);
        value := ReadAt(o, i, index, codec, utf8);
      }
      if value.Err? {
        return Err;
      }
      var field := Field(d.key, value.value);
      size := size + FieldLen(field, codec) + (if properties == [] then 0 else 1);
      if size > MAX_EDGE_PROPERTY_BYTES {
        return Err;
      }
      properties := properties + [field];
    }
    return Ok(properties);
  }

  function ReadAt(o: Opened, i: nat, index: nat, codec: Codec, utf8: bytes -> bool): Result<Json>
    requires OpenedValid(o, codec, utf8) && i < |o.columns|
  {
    assert ValuesAt(o.areas, o.columns, i, codec, utf8);
    var d := o.columns[i];
    ReadValue(d.kind, ValuesOf(o.areas, d), DataOf(o.areas, d), d.valueCount, index, codec, utf8)
  }

  // ----- Written columns open -----

  /** The descriptors and sections of a written table. */
  ghost predicate LaidOut(areas: Area -> bytes, es: seq<Encoded>) {
    forall a :: areas(a) == Content(es, a)
  }

  /** The cursor before column `i` is where its part starts. */
  lemma {:induction false} CursorIsStart(es: seq<Encoded>, a: Area, i: nat)
    requires i <= |es|
    ensures Cursor(DescribeAll(es), a, i) == Start(Parts(es, a), i)
  {
    hide Flat, Describe, Part;
    if i == 0 {
      StartTotal(Parts(es, a));
    } else {
      CursorIsStart(es, a, i - 1);
      FlatSlice(Parts(es, a), i - 1);
      SpanIsPart(es, a, i - 1);
    }
  }

  lemma {:induction false} SpanIsPart(es: seq<Encoded>, a: Area, i: nat)
    requires i < |es|
    ensures Span(Describe(es, i), a) == |Part(es[i], a)|
  {
    hide Flat, Start;
  }

  lemma {:induction false} PartAt(es: seq<Encoded>, a: Area, i: nat)
    requires i < |es|
    ensures var from := Start(Parts(es, a), i); var part := Part(es[i], a);
      Inside(Content(es, a), from, |part|) && Content(es, a)[from..from + |part|] == part
  {
    hide Flat, Part;
    FlatSlice(Parts(es, a), i);
  }

  /** Each column finds its own bytes. */
  lemma {:induction false} ColumnFetched(areas: Area -> bytes, es: seq<Encoded>, i: nat)
    requires LaidOut(areas, es) && i < |es|
    ensures var d := Describe(es, i);
      && Inside(areas(Presences), d.presenceOffset, d.presenceLen) && PresenceOf(areas, d) == es[i].presence
      && Inside(areas(NullMaps), d.nullOffset, d.nullLen) && NullsOf(areas, d) == es[i].nulls
      && Inside(areas(ValueArea(d.kind)), d.valueOffset, d.valueLen) && ValuesOf(areas, d) == es[i].values
      && (!IsScalar(d.kind) ==>
             && Inside(areas(DataArea(d.kind)), d.dataOffset, d.dataLen)
             && DataOf(areas, d) == es[i].data)
  {
    hide Flat, Start, Content;
    var e := es[i];
    PartAt(es, Presences, i);
    PartAt(es, NullMaps, i);
    PartAt(es, ValueArea(e.kind), i);
    if !IsScalar(e.kind) {
      PartAt(es, DataArea(e.kind), i);
    }
  }

  /** A table's columns over its sorted rows. */
  ghost predicate Built(rows: seq<Row>, keys: seq<bytes>, cs: seq<Column>, codec: Codec, utf8: bytes -> bool) {
    && cs == ColumnsOf(rows, keys) && keys == AllKeys(rows) && [] !in keys
    && (forall i :: 0 <= i < |rows| ==> RowAdmitted(rows[i], codec))
    && forall i :: 0 <= i < |rows| ==> DocSound(rows[i].doc, utf8)
  }

  lemma {:induction false} BuiltSound(
    rows: seq<Row>, keys: seq<bytes>, cs: seq<Column>, codec: Codec, utf8: bytes -> bool)
    requires Built(rows, keys, cs, codec, utf8)
    ensures AllSound(cs, utf8)
  {
    hide ColumnOf, ColumnSound, DocSound, RowAdmitted, AllKeys;
    forall i | 0 <= i < |cs| ensures ColumnSound(cs[i], utf8) {
      BuiltColumnSound(rows, keys[i], utf8);
    }
  }

  lemma {:induction false} BuiltSizes(
    rows: seq<Row>, keys: seq<bytes>, cs: seq<Column>, codec: Codec, utf8: bytes -> bool)
    requires Built(rows, keys, cs, codec, utf8)
    ensures |cs| == |keys| && Ascending(keys, Name)
    ensures forall i, x :: 0 <= i < |rows| && !CellOf(rows[i].doc, x).Absent? ==> x in keys
  {
    hide ColumnOf, DocSound, RowAdmitted, AllKeys, CellOf, Ascending;
    AllKeysMeans(rows);
    forall i, x | 0 <= i < |rows| && !CellOf(rows[i].doc, x).Absent? ensures x in keys {
      assert Uses(rows, x);
    }
  }

  /** Everything about one encoded column of a built table that opening and reading need. */
  ghost predicate EncodedOf(e: Encoded, c: Column, rows: seq<Row>, key: bytes, codec: Codec, utf8: bytes -> bool) {
    && ColumnSound(c, utf8) && c == ColumnOf(rows, key) && e == EncodeColumn(c, codec, utf8)
    && (!IsScalar(c.kind) ==> ItemsFit(c.kind, c.values, codec))
  }

  lemma {:induction false} ColumnEncoded(
    rows: seq<Row>, keys: seq<bytes>, cs: seq<Column>, es: seq<Encoded>, codec: Codec, utf8: bytes -> bool, i: nat)
    requires Lawful(codec, utf8) && Built(rows, keys, cs, codec, utf8) && AllSound(cs, utf8)
    requires es == EncodeColumns(cs, codec, utf8) && LengthsFit(es, |rows|) && i < |cs|
    ensures EncodedOf(es[i], cs[i], rows, keys[i], codec, utf8)
  {
    hide Flat, Start, ColumnSound, KindOf, Values, DocSound, RowAdmitted, Lawful, AllKeys, PutWords, ItemBytes, Content,
      Scalars, Packed;
    var c := cs[i];
    if !IsScalar(c.kind) {
      var items := Items(c.kind, c.values, codec);
      forall k | 0 <= k < |c.values| ensures |ItemBytes(c.kind, c.values[k], codec)| <= MAX_EDGE_PROPERTY_BYTES {
        BuiltItemFits(rows, keys[i], codec, utf8, c.kind, k);
      }
      PartAt(es, DataArea(c.kind), i);
      assert |Content(es, DataArea(c.kind))| < U64_LIMIT;
    }
  }

  lemma {:induction false} ColumnBitmapsOk(
    areas: Area -> bytes, es: seq<Encoded>, i: nat, rows: seq<Row>, key: bytes, c: Column, codec: Codec,
    utf8: bytes -> bool)
    requires LaidOut(areas, es) && i < |es| && EncodedOf(es[i], c, rows, key, codec, utf8)
    ensures BitmapsAt(areas, DescribeAll(es), i, |rows|)
  {
    hide Flat, Start, ColumnSound, ItemsFit, Values, Packed, BitmapsValid, Rank, ColumnBytes, KindOf, Content;
    ColumnFetched(areas, es, i);
    CursorIsStart(es, Presences, i);
    CursorIsStart(es, NullMaps, i);
    ColumnBitmaps(Cells(rows, key));
  }

  lemma {:induction false} ColumnValuesExact(
    areas: Area -> bytes, es: seq<Encoded>, i: nat, rows: seq<Row>, key: bytes, c: Column, codec: Codec,
    utf8: bytes -> bool)
    requires Lawful(codec, utf8) && LaidOut(areas, es) && i < |es| && EncodedOf(es[i], c, rows, key, codec, utf8)
    ensures ValuesAt(areas, DescribeAll(es), i, codec, utf8) <==> ColumnReadable(c)
  {
    hide Flat, Start, ColumnSound, ItemsFit, ColumnOf, ColumnBytes, ScalarBytesValid, OffsetsValid, Lawful, Content,
      Cursor, PresenceOf, NullsOf, ParsesBack;
    ColumnFetched(areas, es, i);
    CursorIsStart(es, ValueArea(c.kind), i);
    if IsScalar(c.kind) {
      ScalarsPass(c, codec, utf8);
    } else {
      CursorIsStart(es, DataArea(c.kind), i);
      VariableExact(c, codec, utf8);
    }
  }

  /** Every value a JSON column keeps parses back. */
  predicate AllReadable(cs: seq<Column>) {
    forall i :: 0 <= i < |cs| ==> ColumnReadable(cs[i])
  }

  /** The sections of a written table pass the column checks if and only if its JSON columns are readable. */
  lemma {:induction false} WrittenColumnsExact(
    areas: Area -> bytes, rows: seq<Row>, keys: seq<bytes>, cs: seq<Column>, es: seq<Encoded>, codec: Codec,
    utf8: bytes -> bool)
    requires Lawful(codec, utf8) && Built(rows, keys, cs, codec, utf8) && AllSound(cs, utf8)
    requires es == EncodeColumns(cs, codec, utf8) && LengthsFit(es, |rows|) && LaidOut(areas, es)
    ensures ColumnsValid(areas, DescribeAll(es), |rows|, codec, utf8) <==> AllReadable(cs)
  {
    hide BitmapsAt, ValuesAt, Built, AllSound, LengthsFit, EncodedOf, Lawful, Cursor, Describe, EncodeColumn, Parts,
      Start, ColumnReadable;
    BuiltSizes(rows, keys, cs, codec, utf8);
    forall i | 0 <= i < |es|
      ensures BitmapsAt(areas, DescribeAll(es), i, |rows|)
      ensures ValuesAt(areas, DescribeAll(es), i, codec, utf8) <==> ColumnReadable(cs[i])
    {
      ColumnEncoded(rows, keys, cs, es, codec, utf8, i);
      ColumnBitmapsOk(areas, es, i, rows, keys[i], cs[i], codec, utf8);
      ColumnValuesExact(areas, es, i, rows, keys[i], cs[i], codec, utf8);
    }
    forall a ensures Cursor(DescribeAll(es), a, |es|) == |areas(a)| {
      CursorIsStart(es, a, |es|);
      StartTotal(Parts(es, a));
    }
  }

  // ----- Documents read back -----

  /** An opened file that holds a built table. */
  ghost predicate Holds(
    o: Opened, rows: seq<Row>, keys: seq<bytes>, cs: seq<Column>, es: seq<Encoded>, codec: Codec, utf8: bytes -> bool) {
    && Lawful(codec, utf8) && Built(rows, keys, cs, codec, utf8) && AllSound(cs, utf8)
    && es == EncodeColumns(cs, codec, utf8) && LengthsFit(es, |rows|) && LaidOut(o.areas, es)
    && OpenedValid(o, codec, utf8) && o.columns == DescribeAll(es) && |o.ids| == |rows| && AllReadable(cs)
  }

  /** One cell: presence is presence, null is null, and a value is the row's own in canonical form. */
  lemma {:induction false} CellReads(
    o: Opened, rows: seq<Row>, keys: seq<bytes>, cs: seq<Column>, es: seq<Encoded>, codec: Codec, utf8: bytes -> bool,
    i: nat, row: nat)
    requires Holds(o, rows, keys, cs, es, codec, utf8) && i < |es| && row < |rows|
    ensures i < |keys| && o.columns[i].key == keys[i]
    ensures var cell := CellOf(rows[row].doc, keys[i]);
      && PresentAt(o, i, row, codec, utf8) == !cell.Absent?
      && (!cell.Absent? ==> CellAt(o, i, row, codec, utf8) == Ok(Canon(CellValue(cell))))
  {
    hide Built, AllSound, LengthsFit, OpenedValid, Lawful, ReadValue, Rank, BitAt, Packed, CellOf, ColumnSound,
      ItemsFit, Values, ColumnBytes, KindOf, Start, Canon, ColumnReadable;
    BuiltSizes(rows, keys, cs, codec, utf8);
    ColumnEncoded(rows, keys, cs, es, codec, utf8, i);
    ColumnFetched(o.areas, es, i);
    var cells := Cells(rows, keys[i]);
    PackedBit(Present(cells), row);
    PackedBit(Nulls(cells), row);
    if cells[row].Data? {
      RankCounts(cells, row);
      ValueAt(cells, row);
      ColumnReads(cs[i], codec, utf8, |Values(cells[..row])|);
      if IsScalar(cs[i].kind) {
        ScalarsAlone(cs[i], codec, utf8);
      }
    } else if cells[row].Explicit? {
      NullCanon();
    }
  }

  lemma {:induction false} NullCanon()
    ensures Canon(Null) == Null
  {
  }

  lemma {:induction false} ScalarsAlone(c: Column, codec: Codec, utf8: bytes -> bool)
    requires ColumnSound(c, utf8) && IsScalar(c.kind)
    ensures ColumnBytes(c, codec, utf8).1 == []
  {
  }

  function TextLen(fields: seq<Field>, codec: Codec): nat {
    2 + FieldsLen(fields, codec) + Commas(|fields|)
  }

  lemma {:induction false} FieldsLenConcat(a: seq<Field>, b: seq<Field>, codec: Codec)
    ensures FieldsLen(a + b, codec) == FieldsLen(a, codec) + FieldsLen(b, codec)
  {
    hide FieldLen;
    if a == [] {
      assert a + b == b;
    } else {
      FieldsLenConcat(a[1..], b, codec);
      assert (a + b)[1..] == a[1..] + b;
    }
  }

  /** The running length of a prefix of a document is its own length and within the whole. */
  lemma {:induction false} PrefixLen(soFar: seq<Field>, f: Field, rest: seq<Field>, codec: Codec)
    ensures TextLen(soFar + [f], codec) == TextLen(soFar, codec) + FieldLen(f, codec) + (if soFar == [] then 0 else 1)
    ensures TextLen(soFar + [f], codec) <= TextLen(soFar + [f] + rest, codec)
    ensures FieldLen(f, codec) <= TextLen(soFar + [f], codec)
  {
    hide FieldLen;
    FieldsLenConcat(soFar, [f], codec);
    assert FieldsLen([f], codec) == FieldLen(f, codec) by {
      assert [f][1..] == [];
    }
    FieldsLenConcat(soFar + [f], rest, codec);
  }

  /** From any column on, reading adds exactly the fields of the remaining keys, if the whole is short enough. */
  lemma {:induction false} ReadsRest(
    o: Opened, rows: seq<Row>, keys: seq<bytes>, cs: seq<Column>, es: seq<Encoded>, codec: Codec, utf8: bytes -> bool,
    i: nat, row: nat, soFar: seq<Field>)
    requires Holds(o, rows, keys, cs, es, codec, utf8) && i <= |es| == |keys| && row < |rows|
    requires TextLen(soFar + Restored(keys[i..], rows[row].doc), codec) <= MAX_EDGE_PROPERTY_BYTES
    ensures ReadFrom(o, i, row, soFar, TextLen(soFar, codec), codec, utf8)
      == Ok(soFar + Restored(keys[i..], rows[row].doc))
    decreases |es| - i
  {
    hide Built, AllSound, LengthsFit, OpenedValid, Lawful, CellAt, PresentAt, CellOf, Canon, FieldLen, TextLen, LaidOut,
      Describe, EncodeColumn, ReadFrom, Restored;
    var doc := rows[row].doc;
    if i == |es| {
      ReadNone(o, row, soFar, TextLen(soFar, codec), codec, utf8);
      RestoredNone(keys[i..], doc);
      assert soFar + [] == soFar;
    } else {
      CellReads(o, rows, keys, cs, es, codec, utf8, i, row);
      RestoredSplit(keys, doc, i);
      if CellOf(doc, keys[i]).Absent? {
        assert Restored(keys[i..], doc) == Restored(keys[i + 1..], doc);
        ReadsRest(o, rows, keys, cs, es, codec, utf8, i + 1, row, soFar);
        ReadSkip(o, i, row, soFar, TextLen(soFar, codec), codec, utf8);
      } else {
        var f := RestoredField(doc, keys[i]);
        var rest := Restored(keys[i + 1..], doc);
        assert soFar + ([f] + rest) == soFar + [f] + rest;
        PrefixLen(soFar, f, rest, codec);
        KeyShort(f, codec, utf8);
        ReadsRest(o, rows, keys, cs, es, codec, utf8, i + 1, row, soFar + [f]);
        ReadField(o, i, row, soFar, TextLen(soFar, codec), f, codec, utf8);
      }
    }
  }

  lemma {:induction false} ReadNone(
    o: Opened, row: nat, soFar: seq<Field>, size: nat, codec: Codec, utf8: bytes -> bool)
    requires OpenedValid(o, codec, utf8) && row < |o.ids|
    ensures ReadFrom(o, |o.columns|, row, soFar, size, codec, utf8) == Ok(soFar)
  {
    hide OpenedValid;
  }

  lemma {:induction false} ReadSkip(
    o: Opened, i: nat, row: nat, soFar: seq<Field>, size: nat, codec: Codec, utf8: bytes -> bool)
    requires OpenedValid(o, codec, utf8) && i < |o.columns| && row < |o.ids| && !PresentAt(o, i, row, codec, utf8)
    ensures ReadFrom(o, i, row, soFar, size, codec, utf8) == ReadFrom(o, i + 1, row, soFar, size, codec, utf8)
  {
    hide OpenedValid, CellAt, PresentAt;
  }

  lemma {:induction false} ReadField(
    o: Opened, i: nat, row: nat, soFar: seq<Field>, size: nat, f: Field, codec: Codec, utf8: bytes -> bool)
    requires OpenedValid(o, codec, utf8) && i < |o.columns| && row < |o.ids| && PresentAt(o, i, row, codec, utf8)
    requires f.key == o.columns[i].key && |f.key| <= MAX_EDGE_PROPERTY_BYTES
      && CellAt(o, i, row, codec, utf8) == Ok(f.value)
    requires size + FieldLen(f, codec) + (if soFar == [] then 0 else 1) <= MAX_EDGE_PROPERTY_BYTES
    ensures ReadFrom(o, i, row, soFar, size, codec, utf8) ==
      ReadFrom(o, i + 1, row, soFar + [f], size + FieldLen(f, codec) + (if soFar == [] then 0 else 1), codec, utf8)
  {
    hide OpenedValid, CellAt, PresentAt, FieldLen;
  }

  lemma {:induction false} RestoredNone(keys: seq<bytes>, doc: seq<Field>)
    requires keys == []
    ensures Restored(keys, doc) == []
  {
  }

  lemma {:induction false} RestoredSplit(keys: seq<bytes>, doc: seq<Field>, i: nat)
    requires i < |keys|
    ensures Restored(keys[i..], doc) ==
      (if CellOf(doc, keys[i]).Absent? then [] else [RestoredField(doc, keys[i])]) + Restored(keys[i + 1..], doc)
  {
    hide CellOf, Canon;
    assert keys[i..][1..] == keys[i + 1..];
  }

  lemma {:induction false} KeyShort(f: Field, codec: Codec, utf8: bytes -> bool)
    requires Lawful(codec, utf8)
    ensures |f.key| <= FieldLen(f, codec)
  {
    hide Canon, WellFormed;
  }

  /** A row reads back as its whole document, every object in key order. */
  lemma {:induction false} DocumentReads(
    o: Opened, rows: seq<Row>, keys: seq<bytes>, cs: seq<Column>, es: seq<Encoded>, codec: Codec, utf8: bytes -> bool,
    row: nat)
    requires Holds(o, rows, keys, cs, es, codec, utf8) && row < |rows|
    ensures ReadDocument(o, row, codec, utf8) == Ok(Sort(CanonFields(rows[row].doc), FieldKey))
  {
    hide AllSound, LengthsFit, OpenedValid, Lawful, LaidOut, ReadFrom, Restored, Canon, Sort, Ascending, CellOf,
      AllKeys, FieldsLen, DocumentText, ColumnOf, CanonFields;
    var doc := rows[row].doc;
    BuiltSizes(rows, keys, cs, codec, utf8);
    assert DocSound(doc, utf8) && RowAdmitted(rows[row], codec);
    RestoredIsCanon(keys, doc, utf8);
    FieldsLenCanon(doc, codec, utf8);
    DocumentLength(doc, codec);
    assert keys[0..] == keys;
    assert [] + Restored(keys[0..], doc) == Restored(keys, doc);
    EmptyLen(codec);
    ReadsRest(o, rows, keys, cs, es, codec, utf8, 0, row, []);
  }

  lemma {:induction false} EmptyLen(codec: Codec)
    ensures TextLen([], codec) == 2
  {
  }

  // ----- The file -----

  lemma {:induction false} EmptyArea(es: seq<Encoded>, a: Area)
    requires forall i :: 0 <= i < |es| ==> Part(es[i], a) == []
    ensures Content(es, a) == []
  {
    hide Part;
    FlatEmpty(Parts(es, a));
  }

  lemma {:induction false} FlatEmpty(items: seq<bytes>)
    requires forall i :: 0 <= i < |items| ==> items[i] == []
    ensures Flat(items) == []
  {
    if items != [] {
      FlatEmpty(items[1..]);
    }
  }

  /** An optional section is missing only when it would be empty. */
  lemma {:induction false} MissingIsEmpty(es: seq<Encoded>)
    ensures !HasStrings(es) ==> Content(es, Strings) == []
    ensures !HasJson(es) ==> Content(es, JsonOffsets) == [] && Content(es, Jsons) == []
  {
    hide Content;
    if !HasStrings(es) {
      EmptyArea(es, Strings);
    }
    if !HasJson(es) {
      EmptyArea(es, JsonOffsets);
      EmptyArea(es, Jsons);
    }
  }

  ghost predicate Faithful(art: Artifact.CheckedArtifact, flags: u32, sections: seq<Artifact.Section>) {
    Artifact.AllPowersOfTwo([]) && Artifact.Faithful(art, flags, Artifact.SortById(sections), [])
  }

  predicate Wanted(es: seq<Encoded>, a: Area) {
    && (a == Strings ==> HasStrings(es))
    && (a == JsonOffsets || a == Jsons ==> HasJson(es))
  }

  lemma {:induction false} AreaListed(ids: seq<u64>, directory: bytes, es: seq<Encoded>, a: Area)
    requires LengthsFit(es, |ids|)
    ensures Wanted(es, a) ==> AreaSection(es, a) in SectionsOf(ids, directory, es)
    ensures !Wanted(es, a) ==> forall s :: s in SectionsOf(ids, directory, es) ==> s.id != AreaId(a)
  {
    hide Content, HasStrings, HasJson, PutWords;
  }

  predicate Counted(art: Artifact.CheckedArtifact, es: seq<Encoded>, a: Area)
    requires |es| < U64_LIMIT && AreasFit(es)
  {
    && Fetch(art, AreaId(a)) == Content(es, a)
    && (FilePresent(art, AreaId(a)) ==>
          Artifact.Find(art.entries, AreaId(a)).value.elemCount == AreaSection(es, a).elemCount)
  }

  /** Every area section is found under its id with its content and count, or is missing as it should. */
  lemma {:induction false} AreaFound(
    art: Artifact.CheckedArtifact, flags: u32, ids: seq<u64>, directory: bytes, es: seq<Encoded>, a: Area)
    requires LengthsFit(es, |ids|) && Faithful(art, flags, SectionsOf(ids, directory, es))
    ensures FilePresent(art, AreaId(a)) == Wanted(es, a)
    ensures Counted(art, es, a)
  {
    hide Content, Artifact.Faithful, Artifact.ReadSection, Artifact.SortById, SectionsOf, HasStrings, HasJson, AreasFit,
      Artifact.Find;
    AreaListed(ids, directory, es, a);
    if Wanted(es, a) {
      Artifact.SectionFound(art, flags, SectionsOf(ids, directory, es), [], AreaSection(es, a));
    } else {
      MissingIsEmpty(es);
      if FilePresent(art, AreaId(a)) {
        Artifact.SectionMissing(art, flags, SectionsOf(ids, directory, es), [], AreaId(a));
      }
      MissingReads(art, AreaId(a));
    }
  }

  lemma {:induction false} MissingReads(art: Artifact.CheckedArtifact, id: u32)
    requires !FilePresent(art, id)
    ensures Artifact.ReadSection(art, id).Err?
  {
  }

  lemma {:induction false} FlagsRead(strings: bool, json: bool)
    ensures (FileFlags(strings, json) / 2 % 2 == 1) == strings && (FileFlags(strings, json) % 2 == 1) == json
  {
  }

  lemma {:induction false} KindsMatch(es: seq<Encoded>)
    ensures KindsAgree(FileFlags(HasStrings(es), HasJson(es)), DescribeAll(es))
  {
    hide Start, Parts;
    var ds := DescribeAll(es);
    FlagsRead(HasStrings(es), HasJson(es));
    if HasStrings(es) {
      var i :| 0 <= i < |es| && es[i].kind.StringKind?;
      assert ds[i].kind.StringKind?;
    }
    if HasJson(es) {
      var i :| 0 <= i < |es| && es[i].kind.JsonKind?;
      assert ds[i].kind.JsonKind?;
    }
  }

  lemma {:induction false} CountsMatch(
    art: Artifact.CheckedArtifact, flags: u32, ids: seq<u64>, directory: bytes, es: seq<Encoded>)
    requires LengthsFit(es, |ids|) && Faithful(art, flags, SectionsOf(ids, directory, es))
    requires |Content(es, StringOffsets)| % 8 == 0 && |Content(es, JsonOffsets)| % 8 == 0
    ensures CountsValid(art, DescribeAll(es))
    ensures forall a :: Areas(art)(a) == Content(es, a)
  {
    hide Content, Faithful, Fetch, SectionsOf, AreasFit, Artifact.Find, HasStrings, HasJson;
    forall a ensures Counted(art, es, a) {
      AreaFound(art, flags, ids, directory, es, a);
    }
    assert Counted(art, es, Presences) && Counted(art, es, NullMaps) && Counted(art, es, ScalarData);
    assert Counted(art, es, StringOffsets) && Counted(art, es, Strings) && Counted(art, es, JsonOffsets)
      && Counted(art, es, Jsons);
  }

  /** Offsets come in words of eight bytes. */
  lemma {:induction false} OffsetsAligned(cs: seq<Column>, es: seq<Encoded>, codec: Codec, utf8: bytes -> bool, a: Area)
    requires AllSound(cs, utf8) && es == EncodeColumns(cs, codec, utf8) && (a == StringOffsets || a == JsonOffsets)
    ensures |Content(es, a)| % 8 == 0
  {
    hide ColumnSound, Flat;
    forall i | 0 <= i < |es| ensures |Parts(es, a)[i]| % 8 == 0 {
      assert ColumnSound(cs[i], utf8);
      PartAligned(cs[i], codec, utf8, a);
    }
    FlatAligned(Parts(es, a));
  }

  lemma {:induction false} PartAligned(c: Column, codec: Codec, utf8: bytes -> bool, a: Area)
    requires ColumnSound(c, utf8) && (a == StringOffsets || a == JsonOffsets)
    ensures |Part(EncodeColumn(c, codec, utf8), a)| % 8 == 0
  {
    hide ColumnSound, PutWords, Flat;
  }

  lemma {:induction false} FlatAligned(items: seq<bytes>)
    requires forall i :: 0 <= i < |items| ==> |items[i]| % 8 == 0
    ensures |Flat(items)| % 8 == 0
  {
    if items != [] {
      FlatAligned(items[1..]);
    }
  }

  lemma {:induction false} IdsLoad(
    art: Artifact.CheckedArtifact, flags: u32, ids: seq<u64>, directory: bytes, es: seq<Encoded>)
    requires LengthsFit(es, |ids|) && Faithful(art, flags, SectionsOf(ids, directory, es)) && IdsValid(ids)
    ensures LoadIds(art) == Ok(ids)
  {
    hide Artifact.Faithful, Artifact.ReadSection, Artifact.SortById, AreasFit, Words, PutWords, IdsValid, AreaSection,
      HasStrings, HasJson, Artifact.Find;
    var s := Artifact.Section(EDGE_IDS, |ids|, PutWords(ids, 8));
    assert s == SectionsOf(ids, directory, es)[0];
    Artifact.SectionFound(art, flags, SectionsOf(ids, directory, es), [], s);
    PowValues();
    WordsRoundTrip(ids, 8);
  }

  lemma {:induction false} DirectoryLoads(
    art: Artifact.CheckedArtifact, flags: u32, ids: seq<u64>, directory: bytes, es: seq<Encoded>, utf8: bytes -> bool)
    requires LengthsFit(es, |ids|) && Faithful(art, flags, SectionsOf(ids, directory, es))
    requires EncodeDirectory(DescribeAll(es), |ids|) == Ok(directory) && KeysReadable(DescribeAll(es), utf8)
    ensures LoadDirectory(art, |ids|, utf8) == Ok(DescribeAll(es))
  {
    hide Artifact.Faithful, Artifact.ReadSection, Artifact.SortById, AreasFit, PutWords, AreaSection, HasStrings,
      HasJson, Artifact.Find, EncodeDirectory, DecodeDirectory, KeysReadable, Describe;
    var s := Artifact.Section(DIRECTORY, |es|, directory);
    assert s == SectionsOf(ids, directory, es)[1];
    Artifact.SectionFound(art, flags, SectionsOf(ids, directory, es), [], s);
    DirectoryRoundTrip(DescribeAll(es), |ids|, utf8, directory);
  }

  lemma {:induction false} OptionsMatch(
    art: Artifact.CheckedArtifact, ids: seq<u64>, directory: bytes, es: seq<Encoded>)
    requires LengthsFit(es, |ids|) && Faithful(art, FileFlags(HasStrings(es), HasJson(es)),
      SectionsOf(ids, directory, es))
    ensures OptionalAgree(art) && art.flags == FileFlags(HasStrings(es), HasJson(es))
  {
    hide Content, SectionsOf, AreasFit, FilePresent, HasStrings, HasJson, Artifact.SortById, Artifact.EntryFaithful;
    var flags := FileFlags(HasStrings(es), HasJson(es));
    FlagsRead(HasStrings(es), HasJson(es));
    AreaFound(art, flags, ids, directory, es, Strings);
    AreaFound(art, flags, ids, directory, es, JsonOffsets);
    AreaFound(art, flags, ids, directory, es, Jsons);
  }

  // ----- The theorem -----

  lemma {:induction false} BuildGives(rows: seq<Row>, codec: Codec, utf8: bytes -> bool, t: Table)
    requires Build(rows, codec) == Ok(t) && forall i :: 0 <= i < |rows| ==> DocSound(rows[i].doc, utf8)
    ensures var sorted := Sort(rows, RowKey);
      && t.edgeIds == Ids(sorted) && Built(sorted, AllKeys(sorted), t.columns, codec, utf8) && IdsValid(t.edgeIds)
  {
    hide Sort, AllKeys, DocSound, ColumnOf, DocumentText, Ascending;
    var sorted := Sort(rows, RowKey);
    forall i | 0 <= i < |sorted| ensures DocSound(sorted[i].doc, utf8) {
      SortMember(rows, RowKey, sorted[i]);
    }
    forall i, j | 0 <= i < j < |sorted| ensures sorted[i].edgeId < sorted[j].edgeId {
      AscendingPairs(sorted, RowKey, i, j);
    }
  }

  lemma {:induction false} KeyIsText(
    rows: seq<Row>, keys: seq<bytes>, cs: seq<Column>, codec: Codec, utf8: bytes -> bool, k: bytes)
    requires Built(rows, keys, cs, codec, utf8) && k in keys
    ensures k != [] && utf8(k)
  {
    hide ColumnOf, RowAdmitted, AllKeys, CellOf, Ascending;
    AllKeysMeans(rows);
    var i :| 0 <= i < |rows| && !CellOf(rows[i].doc, k).Absent?;
    var j := CellIndex(rows[i].doc, k);
    assert DocSound(rows[i].doc, utf8);
  }

  lemma {:induction false} KeysRead(
    rows: seq<Row>, keys: seq<bytes>, cs: seq<Column>, es: seq<Encoded>, codec: Codec, utf8: bytes -> bool)
    requires Built(rows, keys, cs, codec, utf8) && AllSound(cs, utf8) && es == EncodeColumns(cs, codec, utf8)
    ensures KeysReadable(DescribeAll(es), utf8)
  {
    hide Built, AllSound, Ascending, ColumnBytes;
    var ds := DescribeAll(es);
    BuiltSizes(rows, keys, cs, codec, utf8);
    forall i | 0 <= i < |ds| ensures ds[i].key == keys[i] && ds[i].key != [] && utf8(ds[i].key) {
      KeyKept(rows, keys, cs, es, codec, utf8, i);
      KeyIsText(rows, keys, cs, codec, utf8, keys[i]);
    }
    assert KeyList(ds) == keys;
  }

  lemma {:induction false} KeyKept(
    rows: seq<Row>, keys: seq<bytes>, cs: seq<Column>, es: seq<Encoded>, codec: Codec, utf8: bytes -> bool, i: nat)
    requires Built(rows, keys, cs, codec, utf8) && AllSound(cs, utf8) && es == EncodeColumns(cs, codec, utf8)
      && i < |es| == |keys|
    ensures DescribeAll(es)[i].key == keys[i]
  {
    hide ColumnBytes, ColumnSound, RowAdmitted, DocSound, AllKeys, KindOf, Packed, Values;
  }

  lemma {:induction false} ArtifactOpens(
    t: Table, es: seq<Encoded>, directory: bytes, codec: Codec, utf8: bytes -> bool, crc: Artifact.Crc, file: bytes)
    returns (art: Artifact.CheckedArtifact)
    requires AllSound(t.columns, utf8) && es == EncodeColumns(t.columns, codec, utf8)
      && Write(t, codec, utf8, crc) == Ok(file)
    requires EncodeDirectory(DescribeAll(es), |t.edgeIds|) == Ok(directory)
    ensures LengthsFit(es, |t.edgeIds|) && Artifact.Open(SPEC, crc, file) == Ok(art)
    ensures Faithful(art, FileFlags(HasStrings(es), HasJson(es)), SectionsOf(t.edgeIds, directory, es))
  {
    hide Artifact.EncodeWithAlignments, Artifact.Open, AreasFit, AllSound, EncodeDirectory, HasStrings, HasJson,
      SectionsOf, Artifact.Faithful, EncodeColumn, Describe;
    var flags := FileFlags(HasStrings(es), HasJson(es));
    Artifact.ArtifactRoundTrip(SPEC, crc, flags, SectionsOf(t.edgeIds, directory, es), [], file);
    art := Artifact.Open(SPEC, crc, file).value;
  }

  lemma {:induction false} OpenSteps(
    file: bytes, crc: Artifact.Crc, codec: Codec, utf8: bytes -> bool, art: Artifact.CheckedArtifact, ids: seq<u64>,
    ds: seq<Descriptor>)
    requires Artifact.Open(SPEC, crc, file) == Ok(art) && OptionalAgree(art) && LoadIds(art) == Ok(ids)
      && LoadDirectory(art, |ids|, utf8) == Ok(ds)
    requires CountsValid(art, ds) && KindsAgree(art.flags, ds)
    ensures Open(file, crc, codec, utf8) ==
      if ColumnsValid(Areas(art), ds, |ids|, codec, utf8) then Ok(Assemble(ids, Areas(art), ds, codec, utf8)) else Err
  {
    hide Artifact.Open, OptionalAgree, LoadIds, LoadDirectory, CountsValid, ColumnsValid, KindsAgree, Assemble, Areas;
  }

  /** A written table opens, over the very sections it was written from, if and only if its JSON columns are
      readable. */
  lemma {:induction false} TableOpensExactly(
    rows: seq<Row>, keys: seq<bytes>, t: Table, es: seq<Encoded>, codec: Codec, utf8: bytes -> bool, crc: Artifact.Crc,
    file: bytes)
    requires Lawful(codec, utf8) && Built(rows, keys, t.columns, codec, utf8) && t.edgeIds == Ids(rows)
      && IdsValid(t.edgeIds)
    requires AllSound(t.columns, utf8) && es == EncodeColumns(t.columns, codec, utf8)
      && Write(t, codec, utf8, crc) == Ok(file)
    ensures Open(file, crc, codec, utf8).Ok? <==> AllReadable(t.columns)
    ensures AllReadable(t.columns) ==>
      && Open(file, crc, codec, utf8).value.ids == t.edgeIds
      && Holds(Open(file, crc, codec, utf8).value, rows, keys, t.columns, es, codec, utf8)
  {
    hide Lawful, Built, IdsValid, AllSound, EncodeColumn, Open, EncodeDirectory, Artifact.Open, Faithful, SectionsOf,
      HasStrings, HasJson, AreasFit, ColumnsValid, CountsValid, KindsAgree, OptionalAgree, LoadIds, LoadDirectory,
        Describe, KeysReadable, Content, OpenedValid, Fetch, AllReadable;
    WriteDirectory(t, codec, utf8, crc, file);
    var directory := EncodeDirectory(DescribeAll(es), |t.edgeIds|).value;
    var art := ArtifactOpens(t, es, directory, codec, utf8, crc, file);
    var flags := FileFlags(HasStrings(es), HasJson(es));
    OptionsMatch(art, t.edgeIds, directory, es);
    IdsLoad(art, flags, t.edgeIds, directory, es);
    KeysRead(rows, keys, t.columns, es, codec, utf8);
    DirectoryLoads(art, flags, t.edgeIds, directory, es, utf8);
    OffsetsAligned(t.columns, es, codec, utf8, StringOffsets);
    OffsetsAligned(t.columns, es, codec, utf8, JsonOffsets);
    CountsMatch(art, flags, t.edgeIds, directory, es);
    KindsMatch(es);
    WrittenColumnsExact(Areas(art), rows, keys, t.columns, es, codec, utf8);
    OpenSteps(file, crc, codec, utf8, art, t.edgeIds, DescribeAll(es));
    if AllReadable(t.columns) {
      OpenIsValid(file, crc, codec, utf8);
    }
  }

  lemma {:induction false} WriteDirectory(t: Table, codec: Codec, utf8: bytes -> bool, crc: Artifact.Crc, file: bytes)
    requires AllSound(t.columns, utf8) && Write(t, codec, utf8, crc) == Ok(file)
    ensures EncodeDirectory(DescribeAll(EncodeColumns(t.columns, codec, utf8)), |t.edgeIds|).Ok?
  {
    hide Artifact.EncodeWithAlignments, AllSound, EncodeDirectory, LengthsFit, SectionsOf, HasStrings, HasJson,
      Describe, EncodeColumn;
  }

  /** The opened file knows exactly the rows' edges, and reads each one's document back. */
  ghost predicate Answers(o: Opened, rows: seq<Row>, codec: Codec, utf8: bytes -> bool) {
    && OpenedValid(o, codec, utf8) && |o.ids| == |rows|
    && (forall i :: 0 <= i < |o.ids| ==> Answered(o, rows, i, codec, utf8))
    && forall r :: r in rows ==> r.edgeId in o.ids
  }

  ghost predicate Answered(o: Opened, rows: seq<Row>, i: nat, codec: Codec, utf8: bytes -> bool)
    requires OpenedValid(o, codec, utf8) && i < |o.ids|
  {
    forall r :: r in rows && r.edgeId == o.ids[i] ==> ReadDocument(o, i, codec, utf8) == Ok(Canon(Obj(r.doc)).fields)
  }

  /** The JSON columns of a built table are readable if and only if its documents parse back. */
  lemma {:induction false} BuiltReadable(rows: seq<Row>, codec: Codec, utf8: bytes -> bool, t: Table)
    requires Build(rows, codec) == Ok(t) && forall i :: 0 <= i < |rows| ==> DocSound(rows[i].doc, utf8)
    ensures AllReadable(t.columns) <==> forall i :: 0 <= i < |rows| ==> DocParses(rows[i].doc)
  {
    hide Sort, AllKeys, ColumnOf, ColumnReadable, DocParses, RowAdmitted, Ascending, Distinct;
    var sorted := Sort(rows, RowKey);
    forall i | 0 <= i < |sorted| ensures Distinct(sorted[i].doc, FieldKey) {
      SortMember(rows, RowKey, sorted[i]);
    }
    ReadableExact(sorted);
    var keys := AllKeys(sorted);
    assert AllReadable(t.columns) <==> forall k :: k in keys ==> ColumnReadable(ColumnOf(sorted, k)) by {
      forall i | 0 <= i < |keys| ensures keys[i] in keys && t.columns[i] == ColumnOf(sorted, keys[i]) {
      }
    }
    forall r ensures r in sorted <==> r in rows {
      SortMember(rows, RowKey, r);
    }
    RowsParse(rows, sorted);
  }

  lemma {:induction false} RowsParse(rows: seq<Row>, sorted: seq<Row>)
    requires forall r :: r in sorted <==> r in rows
    ensures (forall i :: 0 <= i < |sorted| ==> DocParses(sorted[i].doc)) <==>
      forall i :: 0 <= i < |rows| ==> DocParses(rows[i].doc)
  {
    hide DocParses;
    if forall i :: 0 <= i < |sorted| ==> DocParses(sorted[i].doc) {
      forall i | 0 <= i < |rows| ensures DocParses(rows[i].doc) {
        assert rows[i] in sorted;
      }
    }
    if forall i :: 0 <= i < |rows| ==> DocParses(rows[i].doc) {
      forall i | 0 <= i < |sorted| ensures DocParses(sorted[i].doc) {
        assert sorted[i] in rows;
      }
    }
  }

  /** For every table that can be built and written, the file opens if and only if every value of every document
      parses back. It then knows exactly the edges it was given, and reads every document back whole:
      absent keys absent, nulls null, values equal, objects in key order. */
  lemma {:induction false} PropertyRoundTrip(
    rows: seq<Row>, codec: Codec, utf8: bytes -> bool, crc: Artifact.Crc, t: Table, file: bytes)
    requires Lawful(codec, utf8) && forall i :: 0 <= i < |rows| ==> DocSound(rows[i].doc, utf8)
    requires Build(rows, codec) == Ok(t) && Write(t, codec, utf8, crc) == Ok(file)
    ensures Open(file, crc, codec, utf8).Ok? <==> forall i :: 0 <= i < |rows| ==> DocParses(rows[i].doc)
    ensures Open(file, crc, codec, utf8).Ok? ==> Answers(Open(file, crc, codec, utf8).value, rows, codec, utf8)
  {
    hide Lawful, Built, IdsValid, AllSound, Open, Write, Build, Sort, AllKeys, DocSound, EncodeColumns, OpenedValid,
      ReadDocument, Canon, LengthsFit, LaidOut, DescribeAll, AllReadable, Answers, DocParses;
    var sorted := Sort(rows, RowKey);
    BuiltReadable(rows, codec, utf8, t);
    BuildGives(rows, codec, utf8, t);
    BuiltSound(sorted, AllKeys(sorted), t.columns, codec, utf8);
    var es := EncodeColumns(t.columns, codec, utf8);
    TableOpensExactly(sorted, AllKeys(sorted), t, es, codec, utf8, crc, file);
    if AllReadable(t.columns) {
      HoldingAnswers(Open(file, crc, codec, utf8).value, rows, t, es, codec, utf8);
    }
  }

  /** A file that holds the built table answers for its rows. */
  lemma {:induction false} HoldingAnswers(
    o: Opened, rows: seq<Row>, t: Table, es: seq<Encoded>, codec: Codec, utf8: bytes -> bool)
    requires var sorted := Sort(rows, RowKey);
      Holds(o, sorted, AllKeys(sorted), t.columns, es, codec, utf8) && o.ids == Ids(sorted)
    ensures Answers(o, rows, codec, utf8)
  {
    hide Lawful, Built, IdsValid, AllSound, Sort, AllKeys, DocSound, EncodeColumns, ReadDocument, Canon, LengthsFit,
      LaidOut, DescribeAll, AllReadable, ColumnsValid, RanksAt;
    var sorted := Sort(rows, RowKey);
    forall i | 0 <= i < |o.ids| ensures Answered(o, rows, i, codec, utf8) {
      DocumentReads(o, sorted, AllKeys(sorted), t.columns, es, codec, utf8, i);
      CanonObj(sorted[i].doc);
      forall r | r in rows && r.edgeId == o.ids[i] ensures r == sorted[i] {
        SortMember(rows, RowKey, r);
        var j :| 0 <= j < |sorted| && sorted[j] == r;
        IdsDiffer(o.ids, i, j);
      }
    }
    forall r | r in rows ensures r.edgeId in o.ids {
      SortMember(rows, RowKey, r);
      var j :| 0 <= j < |sorted| && sorted[j] == r;
      assert o.ids[j] == r.edgeId;
    }
  }

  lemma {:induction false} IdsDiffer(ids: seq<u64>, i: nat, j: nat)
    requires IdsValid(ids) && i < |ids| && j < |ids| && ids[i] == ids[j]
    ensures i == j
  {
  }

  /** Looking an edge up and reading its row: the document of exactly that edge, or none. */
  method EdgeProperties(
    o: Opened, id: u64, codec: Codec, utf8: bytes -> bool, ghost rows: seq<Row>) returns (r: Result<Option<seq<Field>>>)
    requires Answers(o, rows, codec, utf8)
    ensures !ValidHandle(id) ==> r.Err?
    ensures forall row :: row in rows && row.edgeId == id && ValidHandle(id) ==>
      r == Ok(Some(Canon(Obj(row.doc)).fields))
    ensures ValidHandle(id) && id !in o.ids ==> r == Ok(None)
  {
    hide ReadDocument, Canon, ColumnsValid, RanksAt;
    var found := FindEdge(o, id);
    if found.Err? {
      return Err;
    }
    if found.value.None? {
      return Ok(None);
    }
    var i := found.value.value;
    assert Answered(o, rows, i, codec, utf8);
    var doc := ReadProperties(o, i, codec, utf8);
    if doc.Err? {
      return Err;
    }
    return Ok(Some(doc.value));
  }
}
