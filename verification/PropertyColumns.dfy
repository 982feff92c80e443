/** Typed property columns (`EdgePropertyTable::build` and the value codecs of `graph_edgeprop.rs`):
    from documents to one column a key, and back from a column's bytes to a row's value. */
module PropertyColumns {
  import opened Wrappers
  import opened Bytes
  import opened Ordering
  import opened JsonValues
  import opened JsonParsing
  import opened Bitmaps
  import opened TaggedNeighbors

  const MAX_EDGE_PROPERTY_BYTES: nat := 65536

  datatype Kind = BoolKind | I64Kind | U64Kind | F64Kind | StringKind | JsonKind

  /** A document is an object's fields in iteration order. */
  datatype Row = Row(edgeId: u64, doc: seq<Field>)

  datatype Column = Column(key: bytes, kind: Kind, presence: bytes, nulls: bytes, values: seq<Json>)

  datatype Table = Table(edgeIds: seq<u64>, columns: seq<Column>)

  /** What one row holds under one key. */
  datatype Cell = Absent | Explicit | Data(value: Json)

  /** Printing and parsing JSON text. */
  datatype Codec = Codec(show: Json -> bytes, parse: bytes -> Result<Json>)

  /** Canonical text within the limit parses as `Reread` says, parsing gives well-formed values and never the bare
      marker, different values have different canonical texts, field order does not change the length of the text,
      and the text of a string is no shorter than the string. */
  ghost predicate Lawful(codec: Codec, utf8: bytes -> bool) {
    && (forall v :: WellFormed(v, utf8) && |codec.show(v)| <= MAX_EDGE_PROPERTY_BYTES ==>
      codec.parse(codec.show(Canon(v))) == Reread(Canon(v), MOST_NESTED, codec.parse))
    && NeverOnlyRaw(codec.parse)
    && (forall s :: codec.parse(s).Ok? ==> WellFormed(codec.parse(s).value, utf8))
    && (forall v :: WellFormed(v, utf8) && |codec.show(v)| <= MAX_EDGE_PROPERTY_BYTES ==> TellsApart(codec, utf8, v))
    && (forall v :: |codec.show(Canon(v))| == |codec.show(v)|)
    && forall s :: |s| <= |codec.show(Str(s))|
  }

  /** No other value has the canonical text of `v`. */
  ghost predicate TellsApart(codec: Codec, utf8: bytes -> bool, v: Json) {
    forall u :: WellFormed(u, utf8) && codec.show(Canon(u)) == codec.show(Canon(v)) ==> Canon(u) == Canon(v)
  }

  // ----- Documents -----

  function FieldText(f: Field, codec: Codec): bytes {
    codec.show(Str(f.key)) + [58] + codec.show(f.value)
  }

  function FieldsText(doc: seq<Field>, codec: Codec): bytes {
    if doc == [] then []
    else if |doc| == 1 then FieldText(doc[0], codec)
    else FieldText(doc[0], codec) + [44] + FieldsText(doc[1..], codec)
  }

  /** The compact text of an object. */
  function DocumentText(doc: seq<Field>, codec: Codec): bytes {
    [123] + FieldsText(doc, codec) + [125]
  }

  function FieldLen(f: Field, codec: Codec): nat {
    |codec.show(Str(f.key))| + 1 + |codec.show(f.value)|
  }

  function FieldsLen(doc: seq<Field>, codec: Codec): nat {
    if doc == [] then 0 else FieldLen(doc[0], codec) + FieldsLen(doc[1..], codec)
  }

  function Commas(n: nat): nat {
    if n == 0 then 0 else n - 1
  }

  /** Two braces, every field's key, colon and value, and a comma between fields. */
  lemma {:induction false} DocumentLength(doc: seq<Field>, codec: Codec)
    ensures |DocumentText(doc, codec)| == 2 + FieldsLen(doc, codec) + Commas(|doc|)
  {
    FieldsTextLength(doc, codec);
  }

  lemma {:induction false} FieldsTextLength(doc: seq<Field>, codec: Codec)
    ensures |FieldsText(doc, codec)| == FieldsLen(doc, codec) + Commas(|doc|)
  {
    if |doc| == 1 {
      assert doc[1..] == [];
    } else if |doc| > 1 {
      FieldsTextLength(doc[1..], codec);
    }
  }

  lemma {:induction false} FieldsLenInsert(f: Field, fs: seq<Field>, codec: Codec)
    ensures FieldsLen(Insert(f, fs, FieldKey), codec) == FieldLen(f, codec) + FieldsLen(fs, codec)
  {
    hide FieldLen, Less;
    var r := Insert(f, fs, FieldKey);
    if fs != [] && Less(FieldKey(fs[0]), FieldKey(f)) {
      FieldsLenInsert(f, fs[1..], codec);
      assert r[1..] == Insert(f, fs[1..], FieldKey);
    } else {
      assert r[1..] == fs;
    }
  }

  /** Neither sorting the fields nor sorting inside the values changes the length. */
  lemma {:induction false} FieldsLenCanon(fs: seq<Field>, codec: Codec, utf8: bytes -> bool)
    requires Lawful(codec, utf8)
    ensures FieldsLen(Sort(CanonFields(fs), FieldKey), codec) == FieldsLen(fs, codec)
  {
    hide Canon;
    if fs != [] {
      FieldsLenCanon(fs[1..], codec, utf8);
      var cs := CanonFields(fs);
      assert cs[1..] == CanonFields(fs[1..]);
      FieldsLenInsert(cs[0], Sort(cs[1..], FieldKey), codec);
      assert |codec.show(Canon(fs[0].value))| == |codec.show(fs[0].value)|;
    }
  }

  lemma {:induction false} FieldWithin(doc: seq<Field>, codec: Codec, i: nat)
    requires i < |doc|
    ensures FieldLen(doc[i], codec) <= FieldsLen(doc, codec)
  {
    if i > 0 {
      FieldWithin(doc[1..], codec, i - 1);
    }
  }

  // ----- Cells -----

  function CellOf(doc: seq<Field>, key: bytes): Cell {
    if doc == [] then Absent
    else if doc[0].key == key then (if doc[0].value.Null? then Explicit else Data(doc[0].value))
    else CellOf(doc[1..], key)
  }

  function CellValue(c: Cell): Json
    requires !c.Absent?
  {
    if c.Explicit? then Null else c.value
  }

  function Cells(rows: seq<Row>, key: bytes): (cells: seq<Cell>)
    ensures |cells| == |rows| && forall i :: 0 <= i < |rows| ==> cells[i] == CellOf(rows[i].doc, key)
  {
    seq(|rows|, i requires 0 <= i < |rows| => CellOf(rows[i].doc, key))
  }

  function Present(cells: seq<Cell>): (bits: seq<bool>)
    ensures |bits| == |cells| && forall i :: 0 <= i < |cells| ==> bits[i] == !cells[i].Absent?
  {
    seq(|cells|, i requires 0 <= i < |cells| => !cells[i].Absent?)
  }

  function Nulls(cells: seq<Cell>): (bits: seq<bool>)
    ensures |bits| == |cells| && forall i :: 0 <= i < |cells| ==> bits[i] == cells[i].Explicit?
  {
    seq(|cells|, i requires 0 <= i < |cells| => cells[i].Explicit?)
  }

  /** The values that are neither absent nor null, in row order. */
  function Values(cells: seq<Cell>): seq<Json> {
    if cells == [] then []
    else
      var last := cells[|cells| - 1];
      Values(cells[..|cells| - 1]) + (if last.Data? then [last.value] else [])
  }

  /** A row's value stands in the compact list at the number of values before it. */
  lemma {:induction false} ValueAt(cells: seq<Cell>, row: nat)
    requires row < |cells| && cells[row].Data?
    ensures |Values(cells[..row])| < |Values(cells)| && Values(cells)[|Values(cells[..row])|] == cells[row].value
    decreases |cells|
  {
    var rest := cells[..|cells| - 1];
    if row < |rest| {
      ValueAt(rest, row);
      assert rest[..row] == cells[..row];
    } else {
      assert cells[..row] == rest;
    }
  }

  /** The rank counted from the bitmaps is that number. */
  lemma {:induction false} RankCounts(cells: seq<Cell>, row: nat)
    requires row <= |cells|
    ensures |Packed(Present(cells))| == |Packed(Nulls(cells))| == ByteLen(|cells|)
    ensures Rank(Packed(Present(cells)), Packed(Nulls(cells)), row) == |Values(cells[..row])|
  {
    hide Packed, BitAt;
    if row > 0 {
      RankCounts(cells, row - 1);
      PackedBit(Present(cells), row - 1);
      PackedBit(Nulls(cells), row - 1);
      assert cells[..row][..row - 1] == cells[..row - 1];
      assert cells[..row][row - 1] == cells[row - 1];
    }
  }

  /** The bitmaps of a column pass the open check, and count its values. */
  lemma {:induction false} ColumnBitmaps(cells: seq<Cell>)
    ensures BitmapsValid(Packed(Present(cells)), Packed(Nulls(cells)), |cells|)
    ensures Rank(Packed(Present(cells)), Packed(Nulls(cells)), 8 * ByteLen(|cells|)) == |Values(cells)|
  {
    hide Packed, Bit, Rank;
    var p, n := Packed(Present(cells)), Packed(Nulls(cells));
    forall k | 0 <= k < |p| ensures Subset(n[k], p[k]) {
      forall i | 0 <= i < 8 && Bit(n[k], i) ensures Bit(p[k], i) {
        CellBits(cells, k, i);
      }
    }
    if |cells| % 8 != 0 && p != [] {
      var lastPresent, lastNull := p[|p| - 1], n[|n| - 1];
      forall i | |cells| % 8 <= i < 8 ensures !Bit(lastPresent, i) {
        CellBits(cells, |p| - 1, i);
      }
      forall i | |cells| % 8 <= i < 8 ensures !Bit(lastNull, i) {
        CellBits(cells, |p| - 1, i);
      }
    }
    RankCounts(cells, |cells|);
    assert cells[..|cells|] == cells;
    forall row | |cells| <= row < 8 * |p| ensures !HasData(p, n, row) {
      PackedBit(Present(cells), row);
    }
    RankFlat(p, n, |cells|, 8 * |p|);
  }

  lemma {:induction false} CellBits(cells: seq<Cell>, k: nat, i: nat)
    requires k < ByteLen(|cells|) && i < 8
    ensures Bit(Packed(Present(cells))[k], i) == (8 * k + i < |cells| && !cells[8 * k + i].Absent?)
    ensures Bit(Packed(Nulls(cells))[k], i) == (8 * k + i < |cells| && cells[8 * k + i].Explicit?)
  {
    hide Packed, Bit;
    var row := 8 * k + i;
    assert row / 8 == k && row % 8 == i;
    PackedBit(Present(cells), row);
    PackedBit(Nulls(cells), row);
  }

  // ----- Column kinds -----

  function Classify(v: Json): Kind
    requires !v.Null?
  {
    match v
    case Bool(_) => BoolKind
    case Int(i) => if -0x8000_0000_0000_0000 <= i < 0x8000_0000_0000_0000 then I64Kind else U64Kind
    case Float(_) => F64Kind
    case Str(_) => StringKind
    case Arr(_) => JsonKind
    case Obj(_) => JsonKind
  }

  predicate NoNulls(values: seq<Json>) {
    forall i :: 0 <= i < |values| ==> !values[i].Null?
  }

  predicate AllOfKind(values: seq<Json>, kind: Kind) {
    NoNulls(values) && forall i :: 0 <= i < |values| ==> Classify(values[i]) == kind
  }

  /** The common kind of the values, or JSON for mixed kinds and for no values at all. */
  function KindOf(values: seq<Json>): Kind
    requires NoNulls(values)
  {
    if values != [] && AllOfKind(values, Classify(values[0])) then Classify(values[0]) else JsonKind
  }

  lemma {:induction false} CellNotNull(doc: seq<Field>, key: bytes)
    ensures CellOf(doc, key).Data? ==> !CellOf(doc, key).value.Null?
  {
    if doc != [] && doc[0].key != key {
      CellNotNull(doc[1..], key);
    }
  }

  lemma {:induction false} ValuesNotNull(cells: seq<Cell>)
    requires forall i :: 0 <= i < |cells| ==> cells[i].Data? ==> !cells[i].value.Null?
    ensures NoNulls(Values(cells))
  {
    if cells != [] {
      ValuesNotNull(cells[..|cells| - 1]);
    }
  }

  lemma {:induction false} ColumnNotNull(rows: seq<Row>, key: bytes)
    ensures NoNulls(Values(Cells(rows, key)))
  {
    hide Values, CellOf;
    var cells := Cells(rows, key);
    forall i | 0 <= i < |cells| ensures cells[i].Data? ==> !cells[i].value.Null? {
      CellNotNull(rows[i].doc, key);
    }
    ValuesNotNull(cells);
  }

  function ColumnOf(rows: seq<Row>, key: bytes): Column {
    var cells := Cells(rows, key);
    ColumnNotNull(rows, key);
    Column(key, KindOf(Values(cells)), Packed(Present(cells)), Packed(Nulls(cells)), Values(cells))
  }

  /** The row loop of the builder: bits are set and values pushed as rows are met, and the kind is the
      first one seen until another turns up. */
  method BuildColumn(rows: seq<Row>, key: bytes) returns (column: Column)
    ensures column == ColumnOf(rows, key)
  {
    hide Marks, Packed, CellOf;
    ghost var cells := Cells(rows, key);
    var presence := new byte[ByteLen(|rows|)](_ => 0);
    var nulls := new byte[ByteLen(|rows|)](_ => 0);
    var values: seq<Json> := [];
    var inferred: Option<Kind> := None;
    var mixed := false;
    ZerosMark(presence[..]);
    ZerosMark(nulls[..]);
    for r := 0 to |rows|
      invariant fresh(presence) && fresh(nulls) && presence != nulls
      invariant Marks(presence[..], Present(cells[..r])) && Marks(nulls[..], Nulls(cells[..r]))
      invariant values == Values(cells[..r]) && NoNulls(values)
      invariant inferred == if values == [] then None else Some(Classify(values[0]))
      invariant mixed == (values != [] && !AllOfKind(values, Classify(values[0])))
    {
      var cell := CellOf(rows[r].doc, key);
      CellNotNull(rows[r].doc, key);
      assert cells[..r + 1][..r] == cells[..r] && cells[..r + 1][r] == cell;
      assert Present(cells[..r + 1]) == Present(cells[..r]) + [!cell.Absent?];
      assert Nulls(cells[..r + 1]) == Nulls(cells[..r]) + [cell.Explicit?];
      match cell {
        case Absent =>
          MarksSkip(presence[..], Present(cells[..r]));
          MarksSkip(nulls[..], Nulls(cells[..r]));
        case Explicit =>
          MarkRow(presence, r, Present(cells[..r]));
          MarkRow(nulls, r, Nulls(cells[..r]));
        case Data(value) =>
          MarkRow(presence, r, Present(cells[..r]));
          MarksSkip(nulls[..], Nulls(cells[..r]));
          var kind := Classify(value);
          KindStep(values, value);
          if inferred.Some? && inferred.value != kind {
            mixed := true;
          } else if inferred.None? {
            inferred := Some(kind);
          }
          values := values + [value];
      }
    }
    assert cells[..|rows|] == cells;
    MarksPacked(presence[..], Present(cells));
    MarksPacked(nulls[..], Nulls(cells));
    var kind := if mixed then JsonKind else if inferred.Some? then inferred.value else JsonKind;
    return Column(key, kind, presence[..], nulls[..], values);
  }

  lemma {:induction false} KindStep(values: seq<Json>, value: Json)
    requires NoNulls(values) && !value.Null?
    ensures NoNulls(values + [value])
    ensures values == [] ==> AllOfKind(values + [value], Classify(value))
    ensures values != [] ==>
      (AllOfKind(values + [value], Classify(values[0])) <==>
        && AllOfKind(values, Classify(values[0]))
        && Classify(value) == Classify(values[0]))
  {
    var all := values + [value];
    if values != [] && AllOfKind(all, Classify(values[0])) {
      assert all[|values|] == value;
      forall i | 0 <= i < |values| ensures Classify(values[i]) == Classify(values[0]) {
        assert all[i] == values[i];
      }
    }
  }

  // ----- Values as bytes -----

  predicate IsScalar(kind: Kind) {
    kind.BoolKind? || kind.I64Kind? || kind.U64Kind? || kind.F64Kind?
  }

  function ScalarWidth(kind: Kind): nat {
    if kind.BoolKind? then 1 else 8
  }

  /** A value in the range of its kind, as a Rust value always is. */
  predicate InRange(v: Json) {
    && (v.Int? ==> -0x8000_0000_0000_0000 <= v.value < 0x1_0000_0000_0000_0000)
    && (v.Float? ==> Finite(v.bits))
  }

  /** A signed integer is stored in two's complement. */
  function EncodeScalar(v: Json): (s: bytes)
    requires !v.Null? && InRange(v) && IsScalar(Classify(v))
    ensures |s| == ScalarWidth(Classify(v))
  {
    match v
    case Bool(flag) => [if flag then 1 else 0]
    case Int(i) => Put64(if i < 0 then i + 0x1_0000_0000_0000_0000 else i)
    case Float(bits) => Put64(bits)
  }

  function DecodeScalar(kind: Kind, s: bytes): Result<Json>
    requires IsScalar(kind) && |s| == ScalarWidth(kind)
  {
    if kind.BoolKind? then
      if s[0] == 0 then Ok(Bool(false)) else if s[0] == 1 then Ok(Bool(true)) else Err
    else
      var raw := Get64(s, 0);
      if kind.I64Kind? then Ok(Int(if raw < 0x8000_0000_0000_0000 then raw else raw - 0x1_0000_0000_0000_0000))
      else if kind.U64Kind? then Ok(Int(raw))
      else if Finite(raw) then Ok(Float(raw)) else Err
  }

  lemma {:induction false} ScalarRoundTrip(v: Json)
    requires !v.Null? && InRange(v) && IsScalar(Classify(v))
    ensures DecodeScalar(Classify(v), EncodeScalar(v)) == Ok(v)
  {
    hide FromLE, LE, Finite;
    var s := EncodeScalar(v);
    if !v.Bool? {
      assert s[0..8] == s;
    }
  }

  /** `validate_scalar_bytes`. */
  predicate ScalarBytesValid(kind: Kind, s: bytes)
    requires IsScalar(kind)
  {
    match kind
    case BoolKind => forall i :: 0 <= i < |s| ==> s[i] <= 1
    case F64Kind => forall i :: 0 <= i < |Rows(s, 8)| ==> Finite(Get64(Rows(s, 8)[i], 0))
    case I64Kind => true
    case U64Kind => true
  }

  /** Strings are their bytes, everything else its canonical text. */
  function ItemBytes(kind: Kind, v: Json, codec: Codec): bytes {
    if kind.StringKind? && v.Str? then v.text else codec.show(Canon(v))
  }

  function ReadItem(kind: Kind, s: bytes, codec: Codec, utf8: bytes -> bool): Result<Json> {
    if kind.StringKind? then (if utf8(s) then Ok(Str(s)) else Err)
    else
      var v :- codec.parse(s);
      if codec.show(Canon(v)) == s then Ok(v) else Err
  }

  /** A string needs no parser; any other value must parse back. */
  predicate ItemReadable(kind: Kind, v: Json) {
    kind.StringKind? || ParsesBack(v)
  }

  /** A stored value reads back with its objects in key order, if and only if it is readable. */
  lemma {:induction false} ItemExact(kind: Kind, v: Json, codec: Codec, utf8: bytes -> bool)
    requires Lawful(codec, utf8) && WellFormed(v, utf8) && (kind.StringKind? ==> v.Str?)
    requires |ItemBytes(kind, v, codec)| <= MAX_EDGE_PROPERTY_BYTES
    ensures ReadItem(kind, ItemBytes(kind, v, codec), codec, utf8) == if ItemReadable(kind, v) then Ok(Canon(v))
      else Err
  {
    hide Reread, Depth, Unmarked, NeverOnlyRaw;
    if !kind.StringKind? {
      var w := Canon(v);
      CanonIdempotent(v);
      CanonWellFormed(v, utf8);
      DepthCanon(v);
      UnmarkedCanon(v);
      RereadExact(w, MOST_NESTED, codec.parse, utf8);
      var r := codec.parse(codec.show(w));
      if r.Ok? && codec.show(Canon(r.value)) == codec.show(w) {
        assert TellsApart(codec, utf8, v);
      }
    }
  }

  // ----- A column's bytes -----

  function Scalars(values: seq<Json>): (items: seq<bytes>)
    requires NoNulls(values) && forall i :: 0 <= i < |values| ==> InRange(values[i]) && IsScalar(Classify(values[i]))
    ensures |items| == |values| && forall i :: 0 <= i < |values| ==> items[i] == EncodeScalar(values[i])
  {
    seq(|values|, i requires 0 <= i < |values| => EncodeScalar(values[i]))
  }

  function Items(kind: Kind, values: seq<Json>, codec: Codec): (items: seq<bytes>)
    ensures |items| == |values| && forall i :: 0 <= i < |values| ==> items[i] == ItemBytes(kind, values[i], codec)
  {
    seq(|values|, i requires 0 <= i < |values| => ItemBytes(kind, values[i], codec))
  }

  /** The running lengths, from zero to the whole. */
  function Ends(items: seq<bytes>): (ends: seq<nat>)
    ensures |ends| == |items| + 1 && forall k :: 0 <= k <= |items| ==> ends[k] == Start(items, k)
  {
    seq(|items| + 1, k requires 0 <= k <= |items| => Start(items, k))
  }

  /** What a builder's column satisfies. */
  predicate ColumnSound(c: Column, utf8: bytes -> bool) {
    && NoNulls(c.values) && c.kind == KindOf(c.values)
    && forall i :: 0 <= i < |c.values| ==> WellFormed(c.values[i], utf8)
  }

  lemma {:induction false} SoundKinds(c: Column, utf8: bytes -> bool, i: nat)
    requires ColumnSound(c, utf8) && i < |c.values|
    ensures InRange(c.values[i])
    ensures !c.kind.JsonKind? ==> Classify(c.values[i]) == c.kind
  {
  }

  /** The value bytes and the data bytes of a column: scalars side by side, or offsets and what they delimit. */
  function ColumnBytes(c: Column, codec: Codec, utf8: bytes -> bool): (bytes, bytes)
    requires ColumnSound(c, utf8)
  {
    if IsScalar(c.kind) then
      ScalarsSound(c, utf8);
      (Flat(Scalars(c.values)), [])
    else
      (PutWords(Ends(Items(c.kind, c.values, codec)), 8), Flat(Items(c.kind, c.values, codec)))
  }

  lemma {:induction false} ScalarsSound(c: Column, utf8: bytes -> bool)
    requires ColumnSound(c, utf8) && IsScalar(c.kind)
    ensures forall i :: 0 <= i < |c.values| ==> InRange(c.values[i]) && Classify(c.values[i]) == c.kind
  {
    forall i | 0 <= i < |c.values| ensures InRange(c.values[i]) && Classify(c.values[i]) == c.kind {
      SoundKinds(c, utf8, i);
    }
  }

  /** `read_value` inside a column's own bytes. */
  function ReadValue(
    kind: Kind, values: bytes, data: bytes, count: nat, index: nat, codec: Codec, utf8: bytes -> bool): Result<Json> {
    if index >= count then Err
    else if IsScalar(kind) then
      ReadScalar(kind, values, index)
    else if 8 * index + 16 > |values| then Err
    else
      var start, end := Get64(values, 8 * index), Get64(values, 8 * index + 8);
      if start > end || end > |data| || end - start > MAX_EDGE_PROPERTY_BYTES then Err
      else ReadItem(kind, data[start..end], codec, utf8)
  }

  function ReadScalar(kind: Kind, values: bytes, index: nat): Result<Json>
    requires IsScalar(kind)
  {
    var start := if kind.BoolKind? then index else 8 * index;
    if start + ScalarWidth(kind) > |values| then Err
    else DecodeScalar(kind, values[start..start + ScalarWidth(kind)])
  }

  lemma {:induction false} ScalarReads(c: Column, codec: Codec, utf8: bytes -> bool, index: nat)
    requires ColumnSound(c, utf8) && IsScalar(c.kind) && index < |c.values|
    ensures ReadScalar(c.kind, ColumnBytes(c, codec, utf8).0, index) == Ok(c.values[index])
  {
    hide DecodeScalar, EncodeScalar, Flat;
    ScalarsSound(c, utf8);
    var items := Scalars(c.values);
    var w := ScalarWidth(c.kind);
    RecordAt(items, w, index);
    ScalarRoundTrip(c.values[index]);
    assert index * w == if c.kind.BoolKind? then index else 8 * index;
  }

  lemma {:induction false} ScalarsPass(c: Column, codec: Codec, utf8: bytes -> bool)
    requires ColumnSound(c, utf8) && IsScalar(c.kind)
    ensures |ColumnBytes(c, codec, utf8).0| == |c.values| * ScalarWidth(c.kind)
    ensures ScalarBytesValid(c.kind, ColumnBytes(c, codec, utf8).0)
  {
    hide Flat, Get64, Put64;
    ScalarsSound(c, utf8);
    var items := Scalars(c.values);
    var w := ScalarWidth(c.kind);
    var s := Flat(items);
    FlatWide(items, w);
    if c.kind.BoolKind? {
      forall i | 0 <= i < |s| ensures s[i] <= 1 {
        RecordAt(items, 1, i);
        assert s[i] == s[i * 1..i * 1 + 1][0] == items[i][0];
      }
    } else if c.kind.F64Kind? {
      RowsOfFlat(items, 8);
      forall i | 0 <= i < |items| ensures Finite(Get64(items[i], 0)) {
        FloatWord(c.values[i].bits);
      }
    }
  }

  lemma {:induction false} FloatWord(bits: u64)
    ensures Get64(Put64(bits), 0) == bits
  {
    hide FromLE, LE;
    var s := Put64(bits);
    assert s[0..8] == s;
  }

  /** Word `k` of written words reads back. */
  lemma {:induction false} WordReads(vs: seq<nat>, k: nat)
    requires k < |vs| && forall i :: 0 <= i < |vs| ==> vs[i] < U64_LIMIT
    ensures |PutWords(vs, 8)| == 8 * |vs|
    ensures Get64(PutWords(vs, 8), 8 * k) == vs[k]
    decreases k
  {
    hide LE, FromLE;
    var s := PutWords(vs, 8);
    var head := LE(vs[0], 8);
    if k == 0 {
      PowValues();
      LERoundTrip(vs[0], 8);
      assert s[0..8] == head;
    } else {
      WordReads(vs[1..], k - 1);
      var rest := PutWords(vs[1..], 8);
      assert s == head + rest;
      assert s[8 * k..8 * k + 8] == rest[8 * (k - 1)..8 * (k - 1) + 8];
    }
  }

  /** The values are no longer than a document may be, and together fit 64 bits. */
  predicate ItemsFit(kind: Kind, values: seq<Json>, codec: Codec) {
    && (forall i :: 0 <= i < |values| ==> |ItemBytes(kind, values[i], codec)| <= MAX_EDGE_PROPERTY_BYTES)
    && |Flat(Items(kind, values, codec))| < U64_LIMIT
  }

  lemma {:induction false} EndsFit(items: seq<bytes>)
    requires |Flat(items)| < U64_LIMIT
    ensures forall k :: 0 <= k <= |items| ==> Ends(items)[k] < U64_LIMIT
  {
    hide Flat, Start;
    forall k | 0 <= k <= |items| ensures Ends(items)[k] < U64_LIMIT {
      StartMonotone(items, k, |items|);
      StartTotal(items);
    }
  }

  lemma {:induction false} ItemReads(items: seq<bytes>, k: nat)
    requires k < |items| && |Flat(items)| < U64_LIMIT
    ensures var offsets := PutWords(Ends(items), 8);
      && |offsets| == 8 * (|items| + 1)
      && Get64(offsets, 8 * k) == Start(items, k)
      && Get64(offsets, 8 * k + 8) == Start(items, k) + |items[k]| <= |Flat(items)|
      && Flat(items)[Start(items, k)..Start(items, k) + |items[k]|] == items[k]
  {
    hide Flat, Start, Get64;
    EndsFit(items);
    WordReads(Ends(items), k);
    WordReads(Ends(items), k + 1);
    FlatSlice(items, k);
  }

  lemma {:induction false} VariableReads(c: Column, codec: Codec, utf8: bytes -> bool, index: nat)
    requires Lawful(codec, utf8) && ColumnSound(c, utf8) && !IsScalar(c.kind) && index < |c.values|
    requires ItemsFit(c.kind, c.values, codec) && ItemReadable(c.kind, c.values[index])
    ensures var (values, data) := ColumnBytes(c, codec, utf8);
      ReadValue(c.kind, values, data, |c.values|, index, codec, utf8) == Ok(Canon(c.values[index]))
  {
    hide Flat, Start, Get64, PutWords, ReadItem, ItemBytes, Lawful, ItemReadable;
    var items := Items(c.kind, c.values, codec);
    ItemReads(items, index);
    SoundKinds(c, utf8, index);
    ItemExact(c.kind, c.values[index], codec, utf8);
  }

  /** Every value a column keeps as text parses back. */
  predicate ColumnReadable(c: Column) {
    c.kind.JsonKind? ==> forall i :: 0 <= i < |c.values| ==> ParsesBack(c.values[i])
  }

  /** Reading any value of a written and readable column gives it back with its objects in key order. */
  lemma {:induction false} ColumnReads(c: Column, codec: Codec, utf8: bytes -> bool, index: nat)
    requires Lawful(codec, utf8) && ColumnSound(c, utf8) && ColumnReadable(c) && index < |c.values|
    requires !IsScalar(c.kind) ==> ItemsFit(c.kind, c.values, codec)
    ensures var (values, data) := ColumnBytes(c, codec, utf8);
      ReadValue(c.kind, values, data, |c.values|, index, codec, utf8) == Ok(Canon(c.values[index]))
  {
    hide ColumnBytes, ReadScalar, ItemsFit, Lawful, ParsesBack;
    if IsScalar(c.kind) {
      ScalarReads(c, codec, utf8, index);
      ScalarsSound(c, utf8);
    } else {
      VariableReads(c, codec, utf8, index);
    }
  }

  // ----- Variable columns at open -----

  /** Consecutive offsets from `k` on delimit readable values and end at the data's end. */
  predicate OffsetsValid(kind: Kind, offsets: bytes, data: bytes, count: nat, codec: Codec, utf8: bytes -> bool)
    requires |offsets| == 8 * (count + 1)
  {
    && Get64(offsets, 0) == 0
    && (forall k :: 0 <= k < count ==> ItemValid(kind, offsets, data, count, k, codec, utf8))
    && Get64(offsets, 8 * count) == |data|
  }

  predicate ItemValid(kind: Kind, offsets: bytes, data: bytes, count: nat, k: nat, codec: Codec, utf8: bytes -> bool)
    requires |offsets| == 8 * (count + 1) && k < count
  {
    var start, end := Get64(offsets, 8 * k), Get64(offsets, 8 * k + 8);
    && start <= end <= |data| && end - start <= MAX_EDGE_PROPERTY_BYTES
    && ReadItem(kind, data[start..end], codec, utf8).Ok?
  }

  /** A written text column passes the open check if and only if it is readable. */
  lemma {:induction false} VariableExact(c: Column, codec: Codec, utf8: bytes -> bool)
    requires Lawful(codec, utf8) && ColumnSound(c, utf8) && !IsScalar(c.kind) && ItemsFit(c.kind, c.values, codec)
    ensures var (values, data) := ColumnBytes(c, codec, utf8);
      && |values| == 8 * (|c.values| + 1)
      && (OffsetsValid(c.kind, values, data, |c.values|, codec, utf8) <==> ColumnReadable(c))
  {
    hide Flat, Start, Get64, PutWords, ReadItem, ItemBytes, Lawful, ParsesBack, ItemValid;
    var items := Items(c.kind, c.values, codec);
    var (values, data) := ColumnBytes(c, codec, utf8);
    EndsFit(items);
    StartTotal(items);
    WordReads(Ends(items), 0);
    WordReads(Ends(items), |items|);
    forall k | 0 <= k < |items|
      ensures ItemValid(c.kind, values, data, |items|, k, codec, utf8) <==> ItemReadable(c.kind, c.values[k])
    {
      ValidIsReadable(c, codec, utf8, k);
    }
  }

  lemma {:induction false} ValidIsReadable(c: Column, codec: Codec, utf8: bytes -> bool, k: nat)
    requires Lawful(codec, utf8) && ColumnSound(c, utf8) && !IsScalar(c.kind) && ItemsFit(c.kind, c.values, codec)
    requires k < |c.values|
    ensures var (values, data) := ColumnBytes(c, codec, utf8);
      && |values| == 8 * (|c.values| + 1)
      && (ItemValid(c.kind, values, data, |c.values|, k, codec, utf8) <==> ItemReadable(c.kind, c.values[k]))
  {
    hide Flat, Start, Get64, PutWords, ReadItem, ItemBytes, Lawful, ItemReadable;
    ItemReads(Items(c.kind, c.values, codec), k);
    SoundKinds(c, utf8, k);
    ItemExact(c.kind, c.values[k], codec, utf8);
  }
}
