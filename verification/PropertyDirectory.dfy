/** The column directory of `edgeprop.gdx` (`encode_directory` and `decode_directory` in `graph_edgeprop.rs`). */
module PropertyDirectory {
  import opened Wrappers
  import opened Bytes
  import opened Ordering
  import opened PropertyColumns
  import opened PropertyTable

  const HEADER_BYTES: nat := 16
  const RECORD_BYTES: nat := 112

  /** Where a column's bytes lie in the sections of the file. */
  datatype Descriptor = Descriptor(
    key: bytes, kind: Kind, presenceOffset: nat, presenceLen: nat, nullOffset: nat, nullLen: nat,
    valueOffset: nat, valueLen: nat, dataOffset: nat, dataLen: nat, valueCount: nat)

  function Code(kind: Kind): (b: byte)
    ensures 1 <= b <= 6 && KindOfCode(b) == Some(kind)
  {
    match kind
    case BoolKind => 1
    case I64Kind => 2
    case U64Kind => 3
    case F64Kind => 4
    case StringKind => 5
    case JsonKind => 6
  }

  function KindOfCode(b: byte): Option<Kind> {
    if b == 1 then Some(BoolKind)
    else if b == 2 then Some(I64Kind)
    else if b == 3 then Some(U64Kind)
    else if b == 4 then Some(F64Kind)
    else if b == 5 then Some(StringKind)
    else if b == 6 then Some(JsonKind)
    else None
  }

  function KeyList(ds: seq<Descriptor>): (r: seq<bytes>)
    ensures |r| == |ds| && forall i :: 0 <= i < |ds| ==> r[i] == ds[i].key
  {
    seq(|ds|, i requires 0 <= i < |ds| => ds[i].key)
  }

  /** The ten numbers of a record and its two reserved words. */
  function Numbers(d: Descriptor, rows: nat): (r: seq<nat>)
    ensures |r| == 12
  {
    [d.presenceOffset, d.presenceLen, d.nullOffset, d.nullLen, d.valueOffset, d.valueLen,
     d.dataOffset, d.dataLen, d.valueCount, rows, 0, 0]
  }

  predicate NumbersFit(d: Descriptor, rows: nat) {
    forall i :: 0 <= i < 12 ==> Numbers(d, rows)[i] < U64_LIMIT
  }

  function Head(keyOffset: u32, keyLen: u32, kind: Kind): (s: bytes)
    ensures |s| == 16
  {
    Put32(keyOffset) + Put32(keyLen) + [Code(kind), Code(kind)] + Put16(0) + Put32(0)
  }

  function RecordBytes(keyOffset: u32, d: Descriptor, rows: nat): (s: bytes)
    requires |d.key| < U32_LIMIT
    ensures |s| == RECORD_BYTES
  {
    Head(keyOffset, |d.key|, d.kind) + PutWords(Numbers(d, rows), 8)
  }

  predicate RecordFits(ds: seq<Descriptor>, rows: nat, i: nat)
    requires i < |ds|
  {
    Start(KeyList(ds), i) < U32_LIMIT && |ds[i].key| < U32_LIMIT && NumbersFit(ds[i], rows)
  }

  predicate DirectoryFits(ds: seq<Descriptor>, rows: nat) {
    && |ds| < U32_LIMIT && |Flat(KeyList(ds))| < U64_LIMIT
    && forall i :: 0 <= i < |ds| ==> RecordFits(ds, rows, i)
  }

  function RecordOf(ds: seq<Descriptor>, rows: nat, i: nat): (s: bytes)
    requires i < |ds| && RecordFits(ds, rows, i)
    ensures |s| == RECORD_BYTES
  {
    RecordBytes(Start(KeyList(ds), i), ds[i], rows)
  }

  function Records(ds: seq<Descriptor>, rows: nat): (r: seq<bytes>)
    requires DirectoryFits(ds, rows)
    ensures |r| == |ds| && AllWide(r, RECORD_BYTES)
    ensures forall i :: 0 <= i < |ds| ==> r[i] == RecordOf(ds, rows, i)
  {
    seq(|ds|, i requires 0 <= i < |ds| => RecordOf(ds, rows, i))
  }

  function DirectoryBytes(ds: seq<Descriptor>, rows: nat): bytes
    requires DirectoryFits(ds, rows)
  {
    Put32(|ds|) + Put32(112) + Put64(|Flat(KeyList(ds))|) + Flat(Records(ds, rows)) + Flat(KeyList(ds))
  }

  function EncodeDirectory(ds: seq<Descriptor>, rows: nat): Result<bytes> {
    if DirectoryFits(ds, rows) then Ok(DirectoryBytes(ds, rows)) else Err
  }

  // ----- The loader -----

  function DescriptorOf(key: bytes, kind: Kind, n: seq<nat>): Descriptor
    requires |n| == 12
  {
    Descriptor(key, kind, n[0], n[1], n[2], n[3], n[4], n[5], n[6], n[7], n[8])
  }

  /** One record, given where its key must begin and the key before it. */
  function DecodeRecord(
    record: bytes, keys: bytes, utf8: bytes -> bool, keyOffset: nat, previous: Option<bytes>,
    rows: nat): Result<Descriptor>
    requires |record| == RECORD_BYTES
  {
    if !(Get32(record, 0) == keyOffset && Get32(record, 4) != 0) then Err else
    var keyEnd := keyOffset + Get32(record, 4);
    :- Need(keyEnd <= |keys|);
    var key := keys[keyOffset..keyEnd];
    :- Need((previous.Some? ==> Less(previous.value, key)) && utf8(key));
    var kind := KindOfCode(record[8]);
    :- Need(kind.Some?);
    var n := Words(record[16..112], 8);
    :- Need(record[9] == Code(kind.value) && Get16(record, 10) == 0 && Get32(record, 12) == 0);
    :- Need(n[10] == 0 && n[11] == 0 && n[9] == rows);
    Ok(DescriptorOf(key, kind.value, n))
  }

  function DecodeRecords(
    records: seq<bytes>, keys: bytes, utf8: bytes -> bool, keyOffset: nat, previous: Option<bytes>,
    rows: nat): (r: Result<seq<Descriptor>>)
    requires AllWide(records, RECORD_BYTES)
    ensures r.Ok? ==> |r.value| == |records|
  {
    if records == [] then
      :- Need(keyOffset == |keys|);
      Ok([])
    else
      var d :- DecodeRecord(records[0], keys, utf8, keyOffset, previous, rows);
      var rest :- DecodeRecords(records[1..], keys, utf8, keyOffset + |d.key|, Some(d.key), rows);
      Ok([d] + rest)
  }

  function DecodeDirectory(s: bytes, count: nat, rows: nat, utf8: bytes -> bool): Result<seq<Descriptor>> {
    if !(HEADER_BYTES <= |s|) then Err else
    :- Need(Get32(s, 0) == count && Get32(s, 4) == 112);
    var keyStart := HEADER_BYTES + count * 112;
    :- Need(|s| == keyStart + Get64(s, 8));
    DecodeRecords(Rows(s[HEADER_BYTES..keyStart], RECORD_BYTES), s[keyStart..], utf8, 0, None, rows)
  }

  // ----- The loader undoes the writer -----

  lemma {:induction false} HeadReads(record: bytes, keyOffset: u32, keyLen: u32, kind: Kind, tail: bytes)
    requires record == Head(keyOffset, keyLen, kind) + tail && |record| == RECORD_BYTES
    ensures Get32(record, 0) == keyOffset && Get32(record, 4) == keyLen
    ensures record[8] == Code(kind) && record[9] == Code(kind) && Get16(record, 10) == 0 && Get32(record, 12) == 0
    ensures record[16..112] == tail
  {
    hide FromLE, LE, Code;
    var zero16, zero32 := Put16(0), Put32(0);
    var a, b := Put32(keyOffset), Put32(keyLen);
    var h := a + b + [Code(kind), Code(kind)] + zero16 + zero32;
    assert record == h + tail && |h| == 16;
    assert record[0..4] == a;
    assert record[4..8] == b;
    assert record[10..12] == zero16;
    assert record[12..16] == zero32;
  }

  lemma {:induction false} RecordDecodes(
    record: bytes, keys: bytes, utf8: bytes -> bool, keyOffset: nat, previous: Option<bytes>, rows: nat, d: Descriptor)
    requires |record| == RECORD_BYTES && d.key != [] && utf8(d.key)
    requires Get32(record, 0) == keyOffset && Get32(record, 4) == |d.key|
    requires record[8] == Code(d.kind) && record[9] == Code(d.kind) && Get16(record, 10) == 0 && Get32(record, 12) == 0
    requires Words(record[16..112], 8) == Numbers(d, rows)
    requires keyOffset + |d.key| <= |keys| && keys[keyOffset..keyOffset + |d.key|] == d.key
    requires previous.Some? ==> Less(previous.value, d.key)
    ensures DecodeRecord(record, keys, utf8, keyOffset, previous, rows) == Ok(d)
  {
    hide Words, Get32, Get16;
  }

  predicate KeysReadable(ds: seq<Descriptor>, utf8: bytes -> bool) {
    Ascending(KeyList(ds), Name) && forall i :: 0 <= i < |ds| ==> ds[i].key != [] && utf8(ds[i].key)
  }

  function Before(ds: seq<Descriptor>, i: nat): Option<bytes>
    requires i <= |ds|
  {
    if i == 0 then None else Some(ds[i - 1].key)
  }

  lemma {:induction false} RecordRead(ds: seq<Descriptor>, rows: nat, keys: bytes, utf8: bytes -> bool, i: nat)
    requires i < |ds| && RecordFits(ds, rows, i) && KeysReadable(ds, utf8) && keys == Flat(KeyList(ds))
    ensures DecodeRecord(RecordOf(ds, rows, i), keys, utf8, Start(KeyList(ds), i), Before(ds, i), rows) == Ok(ds[i])
    ensures Start(KeyList(ds), i + 1) == Start(KeyList(ds), i) + |ds[i].key|
  {
    hide Flat, Start, DecodeRecord, Words, PutWords, Head, Get32, Get16, Ascending;
    var d := ds[i];
    var list := KeyList(ds);
    FlatSlice(list, i);
    HeadReads(RecordOf(ds, rows, i), Start(list, i), |d.key|, d.kind, PutWords(Numbers(d, rows), 8));
    PowValues();
    WordsRoundTrip(Numbers(d, rows), 8);
    if i > 0 {
      AscendingPairs(list, Name, i - 1, i);
    }
    RecordDecodes(RecordOf(ds, rows, i), keys, utf8, Start(list, i), Before(ds, i), rows, d);
  }

  lemma {:induction false} RecordsStep(
    records: seq<bytes>, keys: bytes, utf8: bytes -> bool, keyOffset: nat, previous: Option<bytes>, rows: nat,
    d: Descriptor, rest: seq<Descriptor>)
    requires AllWide(records, RECORD_BYTES) && records != []
    requires DecodeRecord(records[0], keys, utf8, keyOffset, previous, rows) == Ok(d)
    requires DecodeRecords(records[1..], keys, utf8, keyOffset + |d.key|, Some(d.key), rows) == Ok(rest)
    ensures DecodeRecords(records, keys, utf8, keyOffset, previous, rows) == Ok([d] + rest)
  {
    hide DecodeRecord;
  }

  lemma {:induction false} RecordsRead(ds: seq<Descriptor>, rows: nat, keys: bytes, utf8: bytes -> bool, i: nat)
    requires DirectoryFits(ds, rows) && KeysReadable(ds, utf8) && keys == Flat(KeyList(ds)) && i <= |ds|
    ensures DecodeRecords(Records(ds, rows)[i..], keys, utf8, Start(KeyList(ds), i), Before(ds, i), rows) == Ok(ds[i..])
    decreases |ds| - i
  {
    hide DecodeRecord, RecordOf, Flat, Start, KeysReadable;
    var records := Records(ds, rows);
    if i == |ds| {
      StartTotal(KeyList(ds));
      assert ds[i..] == [];
    } else {
      RecordRead(ds, rows, keys, utf8, i);
      RecordsRead(ds, rows, keys, utf8, i + 1);
      assert records[i..][0] == records[i] && records[i..][1..] == records[i + 1..];
      RecordsStep(records[i..], keys, utf8, Start(KeyList(ds), i), Before(ds, i), rows, ds[i], ds[i + 1..]);
      assert ds[i..] == [ds[i]] + ds[i + 1..];
    }
  }

  /** Decoding a written directory gives every descriptor back. */
  lemma {:induction false} DirectoryRoundTrip(ds: seq<Descriptor>, rows: nat, utf8: bytes -> bool, s: bytes)
    requires EncodeDirectory(ds, rows) == Ok(s) && KeysReadable(ds, utf8)
    ensures DecodeDirectory(s, |ds|, rows, utf8) == Ok(ds)
  {
    hide FromLE, LE, DecodeRecords, Flat, RecordOf, KeysReadable;
    var table, keys := Flat(Records(ds, rows)), Flat(KeyList(ds));
    FlatWide(Records(ds, rows), RECORD_BYTES);
    var keyStart := HEADER_BYTES + |ds| * 112;
    var a, b, c := Put32(|ds|), Put32(112), Put64(|keys|);
    assert s == a + b + c + table + keys;
    assert s[0..4] == a;
    assert s[4..8] == b;
    assert s[8..16] == c;
    assert s[16..keyStart] == table;
    assert s[keyStart..] == keys;
    StartTotal(KeyList(ds));
    RowsOfFlat(Records(ds, rows), RECORD_BYTES);
    RecordsRead(ds, rows, keys, utf8, 0);
    assert ds[0..] == ds && Records(ds, rows)[0..] == Records(ds, rows);
  }
}
