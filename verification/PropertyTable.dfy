/** Building the property table (`EdgePropertyTable::build` in `graph_edgeprop.rs`), and what the columns of
    one row add up to again. */
module PropertyTable {
  import opened Wrappers
  import opened Bytes
  import opened Ordering
  import opened JsonValues
  import opened JsonParsing
  import opened Bitmaps
  import opened TaggedNeighbors
  import opened PropertyColumns

  function RowKey(r: Row): Key {
    [r.edgeId]
  }

  function Name(k: bytes): Key {
    k
  }

  // ----- The set of keys, kept in byte order -----

  function AddKey(k: bytes, keys: seq<bytes>): seq<bytes> {
    if k in keys then keys else Insert(k, keys, Name)
  }

  function AddKeys(doc: seq<Field>, keys: seq<bytes>): seq<bytes> {
    if doc == [] then keys else AddKey(doc[0].key, AddKeys(doc[1..], keys))
  }

  function AllKeys(rows: seq<Row>): seq<bytes> {
    if rows == [] then [] else AddKeys(rows[0].doc, AllKeys(rows[1..]))
  }

  predicate Uses(rows: seq<Row>, k: bytes) {
    exists i :: 0 <= i < |rows| && !CellOf(rows[i].doc, k).Absent?
  }

  lemma {:induction false} AddKeyMeans(k: bytes, keys: seq<bytes>)
    requires Ascending(keys, Name)
    ensures Ascending(AddKey(k, keys), Name)
    ensures forall x :: x in AddKey(k, keys) <==> x == k || x in keys
  {
    hide Insert, Ascending;
    if k !in keys {
      InsertAscending(k, keys, Name);
      assert Name(k) !in Keys(keys, Name);
      forall x ensures x in AddKey(k, keys) <==> x == k || x in keys {
        assert x in Insert(k, keys, Name) <==> x in multiset(Insert(k, keys, Name));
        assert x in keys <==> x in multiset(keys);
      }
    }
  }

  lemma {:induction false} AddKeysMeans(doc: seq<Field>, keys: seq<bytes>)
    requires Ascending(keys, Name)
    ensures Ascending(AddKeys(doc, keys), Name)
    ensures forall x :: x in AddKeys(doc, keys) <==> x in keys || !CellOf(doc, x).Absent?
  {
    hide AddKey, Ascending;
    if doc != [] {
      AddKeysMeans(doc[1..], keys);
      AddKeyMeans(doc[0].key, AddKeys(doc[1..], keys));
    }
  }

  /** The keys are ascending, and exactly those some document uses. */
  lemma {:induction false} AllKeysMeans(rows: seq<Row>)
    ensures Ascending(AllKeys(rows), Name)
    ensures forall x :: x in AllKeys(rows) <==> Uses(rows, x)
  {
    hide AddKeys, Ascending, CellOf;
    if rows == [] {
      assert Ascending([], Name) by { NoneAscending(); }
    } else {
      AllKeysMeans(rows[1..]);
      AddKeysMeans(rows[0].doc, AllKeys(rows[1..]));
      forall x ensures Uses(rows, x) <==> Uses(rows[1..], x) || !CellOf(rows[0].doc, x).Absent? {
        UsesSplit(rows, x);
      }
    }
  }

  lemma {:induction false} NoneAscending()
    ensures Ascending<bytes>([], Name)
  {
  }

  lemma {:induction false} UsesSplit(rows: seq<Row>, x: bytes)
    requires rows != []
    ensures Uses(rows, x) <==> Uses(rows[1..], x) || !CellOf(rows[0].doc, x).Absent?
  {
    hide CellOf;
    if Uses(rows, x) {
      var i :| 0 <= i < |rows| && !CellOf(rows[i].doc, x).Absent?;
      if i > 0 {
        assert rows[1..][i - 1] == rows[i];
      }
    }
    if Uses(rows[1..], x) {
      var i :| 0 <= i < |rows[1..]| && !CellOf(rows[1..][i].doc, x).Absent?;
      assert rows[i + 1] == rows[1..][i];
    }
  }

  // ----- Build -----

  predicate RowAdmitted(r: Row, codec: Codec) {
    ValidHandle(r.edgeId) && |DocumentText(r.doc, codec)| <= MAX_EDGE_PROPERTY_BYTES
  }

  function Ids(rows: seq<Row>): (ids: seq<u64>)
    ensures |ids| == |rows| && forall i :: 0 <= i < |rows| ==> ids[i] == rows[i].edgeId
  {
    seq(|rows|, i requires 0 <= i < |rows| => rows[i].edgeId)
  }

  function ColumnsOf(rows: seq<Row>, keys: seq<bytes>): (cs: seq<Column>)
    ensures |cs| == |keys| && forall i :: 0 <= i < |keys| ==> cs[i] == ColumnOf(rows, keys[i])
  {
    seq(|keys|, i requires 0 <= i < |keys| => ColumnOf(rows, keys[i]))
  }

  function Build(rows: seq<Row>, codec: Codec): Result<Table> {
    var sorted := Sort(rows, RowKey);
    if (forall i :: 0 <= i < |sorted| ==> RowAdmitted(sorted[i], codec))
       && Ascending(sorted, RowKey) && [] !in AllKeys(sorted) && |rows| + 7 < U64_LIMIT
    then Ok(Table(Ids(sorted), ColumnsOf(sorted, AllKeys(sorted))))
    else Err
  }

  // ----- A row's fields from its cells -----

  predicate DocSound(doc: seq<Field>, utf8: bytes -> bool) {
    WellFormed(Obj(doc), utf8)
  }

  /** With distinct keys the cell under a key is the document's field of that key. */
  lemma {:induction false} CellIsField(doc: seq<Field>, key: bytes, v: Json)
    requires Distinct(doc, FieldKey)
    ensures Field(key, v) in doc <==> !CellOf(doc, key).Absent? && CellValue(CellOf(doc, key)) == v
  {
    hide Distinct;
    if doc != [] {
      DistinctSplit(doc);
      CellIsField(doc[1..], key, v);
      assert doc == [doc[0]] + doc[1..];
      KeyGone(doc[1..], doc[0].key, v);
    }
  }

  lemma {:induction false} KeyGone(rest: seq<Field>, key: bytes, v: Json)
    requires FieldKey(Field(key, v)) !in Keys(rest, FieldKey)
    ensures Field(key, v) !in rest
  {
    if Field(key, v) in rest {
      FieldKeyIn(rest, Field(key, v));
    }
  }

  lemma {:induction false} DistinctSplit(doc: seq<Field>)
    requires doc != [] && Distinct(doc, FieldKey)
    ensures Distinct(doc[1..], FieldKey) && FieldKey(doc[0]) !in Keys(doc[1..], FieldKey)
  {
  }

  lemma {:induction false} FieldKeyIn(doc: seq<Field>, f: Field)
    requires f in doc
    ensures FieldKey(f) in Keys(doc, FieldKey)
  {
  }

  /** The field a present cell becomes: null stays null, other values have their objects in key order. */
  function RestoredField(doc: seq<Field>, key: bytes): Field
    requires !CellOf(doc, key).Absent?
  {
    Field(key, Canon(CellValue(CellOf(doc, key))))
  }

  /** The fields found when the columns are asked in order. */
  function Restored(keys: seq<bytes>, doc: seq<Field>): seq<Field> {
    if keys == [] then []
    else (if CellOf(doc, keys[0]).Absent? then [] else [RestoredField(doc, keys[0])]) + Restored(keys[1..], doc)
  }

  lemma {:induction false} RestoredHolds(keys: seq<bytes>, doc: seq<Field>, x: Field)
    ensures x in Restored(keys, doc) <==> x.key in keys && !CellOf(doc, x.key).Absent? && x == RestoredField(doc, x.key)
  {
    hide CellOf, Canon;
    if keys != [] {
      RestoredHolds(keys[1..], doc, x);
      assert keys == [keys[0]] + keys[1..];
    }
  }

  lemma {:induction false} RestoredAscending(keys: seq<bytes>, doc: seq<Field>)
    requires Ascending(keys, Name)
    ensures Ascending(Restored(keys, doc), FieldKey)
  {
    hide CellOf, Canon, Less;
    if keys != [] {
      RestoredAscending(keys[1..], doc);
      var rest := Restored(keys[1..], doc);
      if !CellOf(doc, keys[0]).Absent? {
        var r := Restored(keys, doc);
        assert r[1..] == rest;
        if rest != [] {
          RestoredHolds(keys[1..], doc, rest[0]);
          var j :| 0 <= j < |keys[1..]| && keys[1..][j] == rest[0].key;
          assert keys[j + 1] == rest[0].key;
          AscendingPairs(keys, Name, 0, j + 1);
        }
      } else {
        assert Restored(keys, doc) == rest;
      }
    }
  }

  /** Asking every key in order gives the whole document with its fields, and theirs, in key order. */
  lemma {:induction false} RestoredIsCanon(keys: seq<bytes>, doc: seq<Field>, utf8: bytes -> bool)
    requires Ascending(keys, Name) && DocSound(doc, utf8)
    requires forall x :: !CellOf(doc, x).Absent? ==> x in keys
    ensures Restored(keys, doc) == Sort(CanonFields(doc), FieldKey)
  {
    hide CellOf, Canon, Ascending, Restored, Sort, Distinct, CanonFields;
    var all := CanonFields(doc);
    var sorted := Sort(all, FieldKey);
    RestoredAscending(keys, doc);
    CanonDistinct(doc);
    SortAscending(all, FieldKey);
    forall x ensures x in Restored(keys, doc) <==> x in sorted {
      RestoredHolds(keys, doc, x);
      SortMember(all, FieldKey, x);
      CanonHolds(doc, x);
    }
    AscendingUnique(Restored(keys, doc), sorted, FieldKey);
  }

  lemma {:induction false} CanonHolds(doc: seq<Field>, x: Field)
    requires Distinct(doc, FieldKey)
    ensures x in CanonFields(doc) <==> !CellOf(doc, x.key).Absent? && x == RestoredField(doc, x.key)
  {
    hide CellOf, Canon, Distinct, CanonFields;
    var cs := CanonFields(doc);
    if x in cs {
      var i :| 0 <= i < |cs| && cs[i] == x;
      assert doc[i] == Field(x.key, doc[i].value);
      CellIsField(doc, x.key, doc[i].value);
    }
    if !CellOf(doc, x.key).Absent? && x == RestoredField(doc, x.key) {
      var v := CellValue(CellOf(doc, x.key));
      CellIsField(doc, x.key, v);
      var i :| 0 <= i < |doc| && doc[i] == Field(x.key, v);
      assert cs[i] == x;
    }
  }

  // ----- What a built table satisfies -----

  lemma {:induction false} CellWellFormed(doc: seq<Field>, key: bytes, utf8: bytes -> bool)
    requires forall i :: 0 <= i < |doc| ==> WellFormed(doc[i].value, utf8)
    ensures CellOf(doc, key).Data? ==> WellFormed(CellOf(doc, key).value, utf8)
  {
    if doc != [] && doc[0].key != key {
      CellWellFormed(doc[1..], key, utf8);
    }
  }

  lemma {:induction false} ValueFromCell(cells: seq<Cell>, i: nat) returns (row: nat)
    requires i < |Values(cells)|
    ensures row < |cells| && cells[row].Data? && cells[row].value == Values(cells)[i]
  {
    var rest := cells[..|cells| - 1];
    if i < |Values(rest)| {
      row := ValueFromCell(rest, i);
    } else {
      row := |cells| - 1;
    }
  }

  lemma {:induction false} BuiltColumnSound(rows: seq<Row>, key: bytes, utf8: bytes -> bool)
    requires forall i :: 0 <= i < |rows| ==> DocSound(rows[i].doc, utf8)
    ensures ColumnSound(ColumnOf(rows, key), utf8)
  {
    hide Values, CellOf, Packed, KindOf;
    var cells := Cells(rows, key);
    ColumnNotNull(rows, key);
    forall i | 0 <= i < |Values(cells)| ensures WellFormed(Values(cells)[i], utf8) {
      var row := ValueFromCell(cells, i);
      assert DocSound(rows[row].doc, utf8);
      CellWellFormed(rows[row].doc, key, utf8);
    }
  }

  /** A value of an admitted document is no longer than the document. */
  lemma {:induction false} BuiltItemFits(
    rows: seq<Row>, key: bytes, codec: Codec, utf8: bytes -> bool, kind: Kind, i: nat)
    requires Lawful(codec, utf8) && i < |Values(Cells(rows, key))|
    requires forall r :: 0 <= r < |rows| ==> RowAdmitted(rows[r], codec)
    ensures |ItemBytes(kind, Values(Cells(rows, key))[i], codec)| <= MAX_EDGE_PROPERTY_BYTES
  {
    hide Values, CellOf, DocumentText, Canon;
    var cells := Cells(rows, key);
    var row := ValueFromCell(cells, i);
    assert RowAdmitted(rows[row], codec);
    CellShort(rows[row].doc, key, codec);
    var v := Values(cells)[i];
    assert |codec.show(Canon(v))| == |codec.show(v)|;
    if v.Str? {
      assert |v.text| <= |codec.show(Str(v.text))|;
    }
  }

  lemma {:induction false} CellShort(doc: seq<Field>, key: bytes, codec: Codec)
    requires |DocumentText(doc, codec)| <= MAX_EDGE_PROPERTY_BYTES
    ensures CellOf(doc, key).Data? ==> |codec.show(CellOf(doc, key).value)| <= MAX_EDGE_PROPERTY_BYTES
  {
    hide DocumentText;
    DocumentLength(doc, codec);
    if CellOf(doc, key).Data? {
      var i := CellIndex(doc, key);
      FieldWithin(doc, codec, i);
    }
  }

  lemma {:induction false} CellIndex(doc: seq<Field>, key: bytes) returns (i: nat)
    requires !CellOf(doc, key).Absent?
    ensures i < |doc| && doc[i].key == key && doc[i].value == CellValue(CellOf(doc, key))
  {
    if doc[0].key == key {
      i := 0;
    } else {
      i := CellIndex(doc[1..], key);
      i := i + 1;
    }
  }

  // ----- Which documents parse back -----

  /** Every value of the document parses back. */
  predicate DocParses(doc: seq<Field>) {
    forall j :: 0 <= j < |doc| ==> ParsesBack(doc[j].value)
  }

  lemma {:induction false} ScalarParses(v: Json)
    requires !Container(v)
    ensures ParsesBack(v)
  {
  }

  /** A container makes its column a JSON column. */
  lemma {:induction false} ContainerKind(values: seq<Json>, i: nat)
    requires NoNulls(values) && i < |values| && Container(values[i])
    ensures KindOf(values).JsonKind?
  {
  }

  lemma {:induction false} ColumnParses(rows: seq<Row>, key: bytes)
    requires forall i :: 0 <= i < |rows| ==> DocParses(rows[i].doc)
    ensures ColumnReadable(ColumnOf(rows, key))
  {
    hide Values, CellOf, Packed, KindOf, ParsesBack;
    var cells := Cells(rows, key);
    forall i | 0 <= i < |Values(cells)| ensures ParsesBack(Values(cells)[i]) {
      var row := ValueFromCell(cells, i);
      var j := CellIndex(rows[row].doc, key);
      assert DocParses(rows[row].doc);
    }
  }

  lemma {:induction false} FieldParses(rows: seq<Row>, i: nat, j: nat)
    requires i < |rows| && j < |rows[i].doc| && Distinct(rows[i].doc, FieldKey)
    requires ColumnReadable(ColumnOf(rows, rows[i].doc[j].key))
    ensures ParsesBack(rows[i].doc[j].value)
  {
    hide Values, CellOf, Packed, KindOf, ParsesBack, Distinct;
    var f := rows[i].doc[j];
    var cells := Cells(rows, f.key);
    if Container(f.value) {
      CellIsField(rows[i].doc, f.key, f.value);
      assert cells[i] == Data(f.value);
      ValueAt(cells, i);
      ColumnNotNull(rows, f.key);
      ContainerKind(Values(cells), |Values(cells[..i])|);
    } else {
      ScalarParses(f.value);
    }
  }

  /** The JSON columns are readable if and only if every value of every document parses back. */
  lemma {:induction false} ReadableExact(rows: seq<Row>)
    requires forall i :: 0 <= i < |rows| ==> Distinct(rows[i].doc, FieldKey)
    ensures (forall k :: k in AllKeys(rows) ==> ColumnReadable(ColumnOf(rows, k))) <==>
      forall i :: 0 <= i < |rows| ==> DocParses(rows[i].doc)
  {
    hide ColumnReadable, ColumnOf, ParsesBack, AllKeys, CellOf, Distinct, Ascending;
    AllKeysMeans(rows);
    if forall i :: 0 <= i < |rows| ==> DocParses(rows[i].doc) {
      forall k | k in AllKeys(rows) ensures ColumnReadable(ColumnOf(rows, k)) {
        ColumnParses(rows, k);
      }
    }
    if forall k :: k in AllKeys(rows) ==> ColumnReadable(ColumnOf(rows, k)) {
      forall i, j | 0 <= i < |rows| && 0 <= j < |rows[i].doc| ensures ParsesBack(rows[i].doc[j].value) {
        var f := rows[i].doc[j];
        CellIsField(rows[i].doc, f.key, f.value);
        assert Uses(rows, f.key);
        FieldParses(rows, i, j);
      }
    }
  }
}
