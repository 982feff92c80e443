/** The namespace index of `graph_group.rs`: one record a namespace, names in a
    shared string area, rows numbered cumulatively. */
module Namespaces {
  import opened Wrappers
  import opened Bytes
  import opened Ordering

  const HEADER_BYTES: nat := 16
  const RECORD_BYTES: nat := 24

  datatype Namespace = Tenant(name: bytes) | AdminCrossTenant

  datatype NamespaceRows = NamespaceRows(namespace: Namespace, rowCount: u32)

  /** Tenants by the bytes of their names, the administrative namespace last. */
  function NamespaceKey(n: Namespace): Key {
    match n
    case Tenant(name) => [0] + name
    case AdminCrossTenant => [1]
  }

  function NameOf(n: Namespace): bytes {
    if n.Tenant? then n.name else []
  }

  predicate InOrder(items: seq<NamespaceRows>) {
    && Ascending(items, (x: NamespaceRows) => NamespaceKey(x.namespace))
    && forall i :: 0 <= i < |items| ==> items[i].namespace != Tenant([])
  }

  function Names(items: seq<NamespaceRows>): (r: seq<bytes>)
    ensures |r| == |items|
    ensures forall i :: 0 <= i < |items| ==> r[i] == NameOf(items[i].namespace)
  {
    seq(|items|, i requires 0 <= i < |items| => NameOf(items[i].namespace))
  }

  function RowsBefore(items: seq<NamespaceRows>, i: nat): nat
    requires i <= |items|
  {
    if i == 0 then 0 else RowsBefore(items, i - 1) + items[i - 1].rowCount
  }

  /** Every cumulative number fits its 32-bit field. */
  predicate FieldsFit(items: seq<NamespaceRows>) {
    && |items| * 24 < U32_LIMIT
    && |Flat(Names(items))| < U64_LIMIT
    && forall i :: 0 <= i < |items| ==> RecordFits(items, i)
  }

  predicate RecordFits(items: seq<NamespaceRows>, i: nat)
    requires i < |items|
  {
    && Start(Names(items), i) < U32_LIMIT
    && |NameOf(items[i].namespace)| < U32_LIMIT
    && RowsBefore(items, i) + items[i].rowCount < U32_LIMIT
  }

  function Record(kind: byte, nameOffset: u32, nameLen: u32, rowStart: u32, rowCount: u32): (s: bytes)
    ensures |s| == RECORD_BYTES
  {
    [kind, 0] + Put16(0) + Put32(nameOffset) + Put32(nameLen) + Put32(rowStart) + Put32(rowCount) + Put32(0)
  }

  function RecordOf(items: seq<NamespaceRows>, i: nat): (s: bytes)
    requires i < |items| && RecordFits(items, i)
    ensures |s| == RECORD_BYTES
  {
    Record(if items[i].namespace.Tenant? then 0 else 1, Start(Names(items), i), |NameOf(items[i].namespace)|,
      RowsBefore(items, i), items[i].rowCount)
  }

  function Records(items: seq<NamespaceRows>): (r: seq<bytes>)
    requires FieldsFit(items)
    ensures |r| == |items| && AllWide(r, RECORD_BYTES)
    ensures forall i :: 0 <= i < |items| ==> r[i] == RecordOf(items, i)
  {
    seq(|items|, i requires 0 <= i < |items| => RecordOf(items, i))
  }

  function IndexBytes(items: seq<NamespaceRows>): bytes
    requires FieldsFit(items)
  {
    Put32(|items|) + Put32(|items| * 24) + Put64(|Flat(Names(items))|)
    + Flat(Records(items)) + Flat(Names(items))
  }

  function EncodeNamespaceIndex(items: seq<NamespaceRows>): Result<bytes> {
    if InOrder(items) && FieldsFit(items) then Ok(IndexBytes(items)) else Err
  }

  // ----- The loader -----

  /** One record, given where its name and its rows must begin; the UTF-8 test is a parameter. */
  function DecodeRecord(
    record: bytes, strings: bytes, utf8: bytes -> bool, nameOffset: nat, rowStart: nat): (r: Result<NamespaceRows>)
    requires |record| == RECORD_BYTES
  {
    if !(record[1] == 0 && Get16(record, 2) == 0 && Get32(record, 20) == 0) then Err else
    :- Need(Get32(record, 4) == nameOffset);
    var nameEnd := nameOffset + Get32(record, 8);
    :- Need(nameEnd <= |strings|);
    var name := strings[nameOffset..nameEnd];
    :- Need((record[0] == 0 && name != [] && utf8(name)) || (record[0] == 1 && name == []));
    :- Need(Get32(record, 12) == rowStart && rowStart + Get32(record, 16) < U32_LIMIT);
    Ok(NamespaceRows(if record[0] == 0 then Tenant(name) else AdminCrossTenant, Get32(record, 16)))
  }

  function DecodeRecords(
    records: seq<bytes>, strings: bytes, utf8: bytes -> bool, nameOffset: nat,
    rowStart: nat): (r: Result<seq<NamespaceRows>>)
    requires AllWide(records, RECORD_BYTES)
    ensures r.Ok? ==> |r.value| == |records|
  {
    if records == [] then
      :- Need(nameOffset == |strings|);
      Ok([])
    else
      var item :- DecodeRecord(records[0], strings, utf8, nameOffset, rowStart);
      var rest :- DecodeRecords(records[1..], strings, utf8, nameOffset + |NameOf(item.namespace)|,
        rowStart + item.rowCount);
      Ok([item] + rest)
  }

  function DecodeNamespaceIndex(s: bytes, utf8: bytes -> bool): Result<seq<NamespaceRows>> {
    if !(HEADER_BYTES <= |s|) then Err else
    var count := Get32(s, 0);
    :- Need(Get32(s, 4) == count * 24);
    var stringStart := HEADER_BYTES + count * 24;
    :- Need(|s| == stringStart + Get64(s, 8));
    var records := Rows(s[HEADER_BYTES..stringStart], RECORD_BYTES);
    var items :- DecodeRecords(records, s[stringStart..], utf8, 0, 0);
    :- Need(InOrder(items));
    Ok(items)
  }

  // ----- The loader undoes the writer -----

  lemma {:induction false} RecordReads(kind: byte, nameOffset: u32, nameLen: u32, rowStart: u32, rowCount: u32)
    ensures var s := Record(kind, nameOffset, nameLen, rowStart, rowCount);
      && s[0] == kind && s[1] == 0 && Get16(s, 2) == 0 && Get32(s, 20) == 0
      && Get32(s, 4) == nameOffset && Get32(s, 8) == nameLen
      && Get32(s, 12) == rowStart && Get32(s, 16) == rowCount
  {
    var s := Record(kind, nameOffset, nameLen, rowStart, rowCount);
    var head := [kind, 0] + Put16(0) + Put32(nameOffset) + Put32(nameLen) + Put32(rowStart) + Put32(rowCount);
    assert |head| == 20 && s == head + Put32(0);
    assert s[2..4] == Put16(0);
    assert s[4..8] == Put32(nameOffset);
    assert s[8..12] == Put32(nameLen);
    assert s[12..16] == Put32(rowStart);
    assert s[16..20] == Put32(rowCount);
    assert s[20..24] == s[20..] == Put32(0);
  }

  predicate NamesValid(items: seq<NamespaceRows>, utf8: bytes -> bool) {
    forall i :: 0 <= i < |items| ==> items[i].namespace.Tenant? ==>
      && items[i].namespace.name != []
      && utf8(items[i].namespace.name)
  }

  lemma {:induction false} RecordDecodes(
    record: bytes, strings: bytes, utf8: bytes -> bool, nameOffset: nat, rowStart: nat, item: NamespaceRows)
    requires |record| == RECORD_BYTES && record[1] == 0 && Get16(record, 2) == 0 && Get32(record, 20) == 0
    requires record[0] == if item.namespace.Tenant? then 0 else 1
    requires Get32(record, 4) == nameOffset && Get32(record, 8) == |NameOf(item.namespace)|
    requires Get32(record, 12) == rowStart && Get32(record, 16) == item.rowCount && rowStart + item.rowCount < U32_LIMIT
    requires nameOffset + |NameOf(item.namespace)| <= |strings|
    requires strings[nameOffset..nameOffset + |NameOf(item.namespace)|] == NameOf(item.namespace)
    requires item.namespace.Tenant? ==> item.namespace.name != [] && utf8(item.namespace.name)
    ensures DecodeRecord(record, strings, utf8, nameOffset, rowStart) == Ok(item)
  {
  }

  lemma {:induction false} RecordRead(
    items: seq<NamespaceRows>, record: bytes, strings: bytes, utf8: bytes -> bool, i: nat)
    requires i < |items| && RecordFits(items, i) && NamesValid(items, utf8)
    requires record == RecordOf(items, i) && strings == Flat(Names(items))
    ensures DecodeRecord(record, strings, utf8, Start(Names(items), i), RowsBefore(items, i)) == Ok(items[i])
    ensures Start(Names(items), i + 1) == Start(Names(items), i) + |NameOf(items[i].namespace)|
  {
    var item := items[i];
    var nameOffset, rowStart := Start(Names(items), i), RowsBefore(items, i);
    FlatSlice(Names(items), i);
    RecordReads(if item.namespace.Tenant? then 0 else 1, nameOffset, |NameOf(item.namespace)|, rowStart, item.rowCount);
    RecordDecodes(record, strings, utf8, nameOffset, rowStart, item);
  }

  lemma {:induction false} RecordsStep(
    records: seq<bytes>, strings: bytes, utf8: bytes -> bool, nameOffset: nat, rowStart: nat, item: NamespaceRows,
    rest: seq<NamespaceRows>)
    requires AllWide(records, RECORD_BYTES) && records != []
    requires DecodeRecord(records[0], strings, utf8, nameOffset, rowStart) == Ok(item)
    requires DecodeRecords(records[1..], strings, utf8, nameOffset + |NameOf(item.namespace)|, rowStart + item.rowCount)
      == Ok(rest)
    ensures DecodeRecords(records, strings, utf8, nameOffset, rowStart) == Ok([item] + rest)
  {
    hide DecodeRecord;
  }

  lemma {:induction false} RecordsRead(items: seq<NamespaceRows>, strings: bytes, utf8: bytes -> bool, i: nat)
    requires FieldsFit(items) && NamesValid(items, utf8) && i <= |items|
    requires strings == Flat(Names(items))
    ensures DecodeRecords(Records(items)[i..], strings, utf8, Start(Names(items), i), RowsBefore(items, i))
      == Ok(items[i..])
    decreases |items| - i
  {
    hide DecodeRecord, RecordOf, Flat, Start, NameOf;
    var records := Records(items);
    if i == |items| {
      StartTotal(Names(items));
      assert items[i..] == [];
    } else {
      assert RecordFits(items, i);
      RecordRead(items, records[i], strings, utf8, i);
      RecordsRead(items, strings, utf8, i + 1);
      assert records[i..][0] == records[i] && records[i..][1..] == records[i + 1..];
      assert RowsBefore(items, i + 1) == RowsBefore(items, i) + items[i].rowCount;
      RecordsStep(records[i..], strings, utf8, Start(Names(items), i), RowsBefore(items, i), items[i], items[i + 1..]);
      assert items[i..] == [items[i]] + items[i + 1..];
    }
  }

  /** Decoding a written index returns the namespaces and their row counts. */
  lemma {:induction false} NamespaceIndexRoundTrip(items: seq<NamespaceRows>, utf8: bytes -> bool, s: bytes)
    requires EncodeNamespaceIndex(items) == Ok(s)
    requires forall i :: 0 <= i < |items| ==> items[i].namespace.Tenant? ==> utf8(items[i].namespace.name)
    ensures DecodeNamespaceIndex(s, utf8) == Ok(items)
  {
    hide FromLE, DecodeRecords, Flat, RecordOf;
    var table, strings := Flat(Records(items)), Flat(Names(items));
    FlatWide(Records(items), RECORD_BYTES);
    var stringStart := HEADER_BYTES + |items| * 24;
    assert s[0..4] == Put32(|items|);
    assert s[4..8] == Put32(|items| * 24);
    assert s[8..16] == Put64(|strings|);
    assert s[16..stringStart] == table;
    assert s[stringStart..] == strings;
    StartTotal(Names(items));
    RowsOfFlat(Records(items), RECORD_BYTES);
    RecordsRead(items, strings, utf8, 0);
    assert items[0..] == items && Records(items)[0..] == Records(items);
  }
}
