/** The checked artifact envelope of `graph_artifact.rs`: a fixed header, a
    section table guarded by CRC32C (section 12.1 of RFC 3720, here a parameter),
    and aligned sections. */
module Artifact {
  import opened Wrappers
  import opened Bytes
  import opened Ordering

  const FORMAT_VERSION: u32 := 1
  const COMMON_HEADER_BYTES: nat := 32
  const SECTION_TABLE_ENTRY_BYTES: nat := 32
  const MAX_SECTIONS: nat := 64

  type Crc = bytes -> u32

  datatype Spec = Spec(magic: bytes, allowedFlags: u32, required: seq<u32>, optional: seq<u32>, maxFileLen: u64)

  datatype Section = Section(id: u32, elemCount: u64, content: bytes)

  datatype Entry = Entry(id: u32, offset: u64, length: u64, elemCount: u64)

  datatype CheckedArtifact = CheckedArtifact(file: bytes, flags: u32, entries: seq<Entry>)

  /** `flags & !allowed == 0`. */
  predicate MaskedBy(flags: nat, allowed: nat) {
    flags == 0 || ((flags % 2 == 1 ==> allowed % 2 == 1) && MaskedBy(flags / 2, allowed / 2))
  }

  predicate KnownSection(spec: Spec, id: u32) {
    id in spec.required || id in spec.optional
  }

  // ----- Ordering sections by id -----

  function SortById(sections: seq<Section>): (r: seq<Section>)
    ensures |r| == |sections|
    ensures multiset(r) == multiset(sections)
  {
    Sort(sections, (s: Section) => [s.id])
  }

  predicate StrictIds(sections: seq<Section>) {
    forall i, j :: 0 <= i < j < |sections| ==> sections[i].id < sections[j].id
  }

  // ----- The writer -----

  predicate PowerOfTwo(a: nat) {
    a == 1 || (a > 0 && a % 2 == 0 && PowerOfTwo(a / 2))
  }

  predicate PowerOfTwoAlignment(a: nat) {
    8 <= a <= 65536 && PowerOfTwo(a)
  }

  predicate HasId(sections: seq<Section>, id: u32) {
    exists j :: 0 <= j < |sections| && sections[j].id == id
  }

  predicate AllPowersOfTwo(alignments: seq<(u32, nat)>) {
    forall i :: 0 <= i < |alignments| ==> PowerOfTwoAlignment(alignments[i].1)
  }

  predicate AlignmentsValid(spec: Spec, ordered: seq<Section>, alignments: seq<(u32, nat)>) {
    && (forall i :: 0 <= i < |alignments| ==>
          && KnownSection(spec, alignments[i].0)
          && HasId(ordered, alignments[i].0))
    && AllPowersOfTwo(alignments)
    && (forall i, j :: 0 <= i < j < |alignments| ==> alignments[i].0 != alignments[j].0)
  }

  /** The requested alignment, eight bytes when none was asked for. */
  function AlignmentOf(alignments: seq<(u32, nat)>, id: u32): (a: nat)
    requires AllPowersOfTwo(alignments)
    ensures PowerOfTwoAlignment(a)
  {
    if alignments == [] then 8
    else if alignments[0].0 == id then alignments[0].1
    else AlignmentOf(alignments[1..], id)
  }

  function SectionOffsets(next: nat, ordered: seq<Section>, alignments: seq<(u32, nat)>): (offsets: seq<nat>)
    requires AllPowersOfTwo(alignments)
    ensures |offsets| == |ordered|
    decreases |ordered|
  {
    if ordered == [] then []
    else
      var offset := AlignUp(next, AlignmentOf(alignments, ordered[0].id));
      [offset] + SectionOffsets(offset + |ordered[0].content|, ordered[1..], alignments)
  }

  function Contents(ordered: seq<Section>): (r: seq<bytes>)
    ensures |r| == |ordered|
    ensures forall i :: 0 <= i < |ordered| ==> r[i] == ordered[i].content
  {
    seq(|ordered|, i requires 0 <= i < |ordered| => ordered[i].content)
  }

  lemma {:induction false} OffsetsPlaceable(next: nat, ordered: seq<Section>, alignments: seq<(u32, nat)>)
    requires AllPowersOfTwo(alignments)
    ensures Placeable(next, Contents(ordered), SectionOffsets(next, ordered, alignments))
    ensures forall i :: 0 <= i < |ordered| ==>
      SectionOffsets(next, ordered, alignments)[i] % AlignmentOf(alignments, ordered[i].id) == 0
    decreases |ordered|
  {
    if ordered != [] {
      var items, offsets := Contents(ordered), SectionOffsets(next, ordered, alignments);
      var from := offsets[0] + |items[0]|;
      OffsetsPlaceable(from, ordered[1..], alignments);
      assert Contents(ordered[1..]) == items[1..];
      assert offsets[1..] == SectionOffsets(from, ordered[1..], alignments);
      PlaceableCons(next, items, offsets);
      forall i | 0 <= i < |items| ensures offsets[i] % AlignmentOf(alignments, ordered[i].id) == 0 {
        if i > 0 {
          assert ordered[1..][i - 1] == ordered[i] && offsets[1..][i - 1] == offsets[i];
        }
      }
    }
  }

  function EntryBytes(e: Entry): (s: bytes)
    ensures |s| == 32
  {
    Put32(e.id) + Put32(0) + Put64(e.offset) + Put64(e.length) + Put64(e.elemCount)
  }

  function EntriesBytes(es: seq<Entry>): (r: seq<bytes>)
    ensures |r| == |es| && AllWide(r, 32)
    ensures forall i :: 0 <= i < |es| ==> r[i] == EntryBytes(es[i])
  {
    seq(|es|, i requires 0 <= i < |es| => EntryBytes(es[i]))
  }

  function FixedPrefix(spec: Spec, flags: u32, fileLen: u64, count: u32): bytes {
    spec.magic + Put32(FORMAT_VERSION) + Put32(flags) + Put64(fileLen) + Put32(count)
  }

  function HeaderBytes(spec: Spec, crc: Crc, flags: u32, fileLen: u64, entries: seq<Entry>): (s: bytes)
    requires |spec.magic| == 8 && |entries| <= MAX_SECTIONS
    ensures |s| == HeaderLen(|entries|)
  {
    var prefix := FixedPrefix(spec, flags, fileLen, |entries|);
    var table := Flat(EntriesBytes(entries));
    FlatWide(EntriesBytes(entries), 32);
    prefix + Put32(crc(prefix + table)) + table
  }

  function HeaderLen(count: nat): nat {
    COMMON_HEADER_BYTES + count * SECTION_TABLE_ENTRY_BYTES
  }

  function EntryList(ordered: seq<Section>, offsets: seq<nat>): (es: seq<Entry>)
    requires |ordered| == |offsets|
    requires forall i :: 0 <= i < |ordered| ==> offsets[i] + |ordered[i].content| < U64_LIMIT
    ensures |es| == |ordered|
    ensures forall i :: 0 <= i < |es| ==>
      es[i] == Entry(ordered[i].id, offsets[i], |ordered[i].content|, ordered[i].elemCount)
  {
    seq(|ordered|, i requires 0 <= i < |ordered| =>
      Entry(ordered[i].id, offsets[i], |ordered[i].content|, ordered[i].elemCount))
  }

  /** What the writer refuses before laying anything out. */
  predicate Writable(spec: Spec, flags: u32, ordered: seq<Section>, alignments: seq<(u32, nat)>) {
    && MaskedBy(flags, spec.allowedFlags)
    && 0 < |ordered| <= MAX_SECTIONS
    && StrictIds(ordered)
    && (forall i :: 0 <= i < |ordered| ==> KnownSection(spec, ordered[i].id))
    && (forall i :: 0 <= i < |spec.required| ==> HasId(ordered, spec.required[i]))
    && AlignmentsValid(spec, ordered, alignments)
  }

  function FileLen(ordered: seq<Section>, offsets: seq<nat>): nat
    requires |ordered| == |offsets| > 0
  {
    offsets[|ordered| - 1] + |ordered[|ordered| - 1].content|
  }

  /** Header, table and aligned sections. */
  function LayOut(spec: Spec, crc: Crc, flags: u32, ordered: seq<Section>, alignments: seq<(u32, nat)>): Result<bytes>
    requires |spec.magic| == 8 && 0 < |ordered| <= MAX_SECTIONS && AllPowersOfTwo(alignments)
  {
    var from := HeaderLen(|ordered|);
    var offsets := SectionOffsets(from, ordered, alignments);
    OffsetsPlaceable(from, ordered, alignments);
    var fileLen := FileLen(ordered, offsets);
    if fileLen > spec.maxFileLen then Err
    else
      OffsetsBelowEnd(from, ordered, offsets);
      var entries := EntryList(ordered, offsets);
      var header := HeaderBytes(spec, crc, flags, fileLen, entries);
      Ok(Place(header, Contents(ordered), offsets))
  }

  function EncodeWithAlignments(
    spec: Spec, crc: Crc, flags: u32, sections: seq<Section>, alignments: seq<(u32, nat)>): Result<bytes>
    requires |spec.magic| == 8
  {
    if Writable(spec, flags, SortById(sections), alignments)
    then LayOut(spec, crc, flags, SortById(sections), alignments)
    else Err
  }

  lemma {:induction false} GapMonotone(from: nat, items: seq<bytes>, offsets: seq<nat>, i: nat, j: nat)
    requires Placeable(from, items, offsets) && i <= j <= |items|
    ensures GapStart(from, items, offsets, i) <= GapStart(from, items, offsets, j)
    decreases j - i
  {
    if i < j {
      GapMonotone(from, items, offsets, i, j - 1);
      assert GapStart(from, items, offsets, j - 1) <= offsets[j - 1];
    }
  }

  lemma {:induction false} OffsetsBelowEnd(from: nat, ordered: seq<Section>, offsets: seq<nat>)
    requires |ordered| == |offsets| > 0 && Placeable(from, Contents(ordered), offsets)
    ensures forall i :: 0 <= i < |ordered| ==> offsets[i] + |ordered[i].content| <= FileLen(ordered, offsets)
    ensures forall i :: 0 <= i < |ordered| ==> from <= offsets[i]
    ensures forall i, j :: 0 <= i < j < |ordered| ==> offsets[i] + |ordered[i].content| <= offsets[j]
  {
    var items := Contents(ordered);
    forall i | 0 <= i < |ordered|
      ensures offsets[i] + |ordered[i].content| <= FileLen(ordered, offsets)
      ensures from <= offsets[i]
    {
      GapMonotone(from, items, offsets, i + 1, |items|);
      GapMonotone(from, items, offsets, 0, i);
      assert GapStart(from, items, offsets, i) <= offsets[i];
    }
    forall i, j | 0 <= i < j < |ordered| ensures offsets[i] + |ordered[i].content| <= offsets[j] {
      GapMonotone(from, items, offsets, i + 1, j);
      assert GapStart(from, items, offsets, j) <= offsets[j];
    }
  }

  /** Sections listed by ascending id stay as they are. */
  lemma {:induction false} AlreadySorted(sections: seq<Section>)
    requires StrictIds(sections)
    ensures SortById(sections) == sections
  {
    hide Sort;
    IdsSorted(sections);
    SortFixed(sections, (s: Section) => [s.id]);
  }

  lemma {:induction false} IdsSorted(sections: seq<Section>)
    requires StrictIds(sections)
    ensures Sorted(sections, (s: Section) => [s.id])
  {
    if |sections| > 1 {
      IdsSorted(sections[1..]);
      LessTotal([sections[0].id], [sections[1].id]);
    }
  }

  lemma {:induction false} OneTimes(n: nat, each: nat)
    requires n > 0
    ensures n * each == each + (n - 1) * each
  {
  }

  /** Small sections make a small file. */
  lemma {:induction false} FileLenBound(next: nat, ordered: seq<Section>, alignments: seq<(u32, nat)>, bound: nat)
    requires AllPowersOfTwo(alignments) && ordered != []
    requires forall i :: 0 <= i < |ordered| ==> |ordered[i].content| <= bound
    ensures FileLen(ordered, SectionOffsets(next, ordered, alignments)) <= next + |ordered| * (65536 + bound)
    decreases |ordered|
  {
    hide PowerOfTwo, AlignUp, AlignmentOf, AllPowersOfTwo;
    var offsets := SectionOffsets(next, ordered, alignments);
    var from := offsets[0] + |ordered[0].content|;
    var each, n := 65536 + bound, |ordered|;
    assert from <= next + each;
    OneTimes(n, each);
    if n > 1 {
      FileLenBound(from, ordered[1..], alignments, bound);
      assert offsets[1..] == SectionOffsets(from, ordered[1..], alignments);
      assert FileLen(ordered, offsets) == FileLen(ordered[1..], offsets[1..]);
    } else {
      assert (n - 1) * each == 0;
    }
  }

  // ----- The loader -----

  function ParseEntry(raw: bytes): Entry
    requires |raw| == 32
  {
    Entry(Get32(raw, 0), Get64(raw, 8), Get64(raw, 16), Get64(raw, 24))
  }

  /** Entries of the table from `i` on; a non-zero section flag is refused. */
  function ParseTable(table: bytes, count: nat, i: nat): (r: Result<seq<Entry>>)
    requires |table| == count * 32 && i <= count
    ensures r.Ok? ==> |r.value| == count - i
    decreases count - i
  {
    if i == count then Ok([])
    else
      var raw := table[i * 32..i * 32 + 32];
      :- Need(Get32(raw, 4) == 0);
      var rest :- ParseTable(table, count, i + 1);
      Ok([ParseEntry(raw)] + rest)
  }

  predicate EntriesInOrder(spec: Spec, entries: seq<Entry>, headerBytes: nat, fileLen: nat) {
    && (forall i, j :: 0 <= i < j < |entries| ==> entries[i].id < entries[j].id)
    && (forall i :: 0 <= i < |entries| ==>
          && KnownSection(spec, entries[i].id)
          && entries[i].offset % 8 == 0
          && headerBytes <= entries[i].offset
          && entries[i].offset + entries[i].length <= fileLen)
  }

  /** The ranges sorted by start, then end. */
  function InsertRange(r: (nat, nat), sorted: seq<(nat, nat)>): seq<(nat, nat)> {
    if sorted == [] || r.0 < sorted[0].0 || (r.0 == sorted[0].0 && r.1 <= sorted[0].1) then [r] + sorted
    else [sorted[0]] + InsertRange(r, sorted[1..])
  }

  function SortedRanges(entries: seq<Entry>): seq<(nat, nat)> {
    if entries == [] then []
    else InsertRange((entries[0].offset, entries[0].offset + entries[0].length), SortedRanges(entries[1..]))
  }

  predicate Tiled(ranges: seq<(nat, nat)>, fileLen: nat) {
    && ranges != []
    && ranges[|ranges| - 1].1 == fileLen
    && forall i :: 0 <= i < |ranges| - 1 ==> NoOverlap(ranges, i)
  }

  predicate NoOverlap(ranges: seq<(nat, nat)>, i: nat)
    requires i + 1 < |ranges|
  {
    ranges[i].1 <= ranges[i + 1].0
  }

  /** Magic, version, flags, length, section count and the CRC of header and table. */
  function ParseHeader(spec: Spec, crc: Crc, file: bytes): (r: Result<(u32, nat)>)
    ensures r.Ok? ==> 0 < r.value.1 <= MAX_SECTIONS && HeaderLen(r.value.1) <= |file|
  {
    if !(COMMON_HEADER_BYTES <= |file| <= spec.maxFileLen) then Err else
    :- Need(file[..8] == spec.magic && Get32(file, 8) == FORMAT_VERSION);
    var flags := Get32(file, 12);
    :- Need(MaskedBy(flags, spec.allowedFlags) && Get64(file, 16) == |file|);
    var count := Get32(file, 24);
    :- Need(0 < count <= MAX_SECTIONS && HeaderLen(count) <= |file|);
    :- Need(crc(file[..28] + file[COMMON_HEADER_BYTES..HeaderLen(count)]) == Get32(file, 28));
    Ok((flags, count))
  }

  predicate TableAcceptable(spec: Spec, entries: seq<Entry>, headerBytes: nat, fileLen: nat) {
    && EntriesInOrder(spec, entries, headerBytes, fileLen)
    && (forall i :: 0 <= i < |spec.required| ==> Find(entries, spec.required[i]).Some?)
    && Tiled(SortedRanges(entries), fileLen)
  }

  function Open(spec: Spec, crc: Crc, file: bytes): Result<CheckedArtifact> {
    var (flags, count) :- ParseHeader(spec, crc, file);
    var entries :- ParseTable(file[COMMON_HEADER_BYTES..HeaderLen(count)], count, 0);
    :- Need(TableAcceptable(spec, entries, HeaderLen(count), |file|));
    Ok(CheckedArtifact(file, flags, entries))
  }

  function Find(entries: seq<Entry>, id: u32): (r: Option<Entry>)
    ensures r.Some? ==> r.value in entries && r.value.id == id
    ensures r.None? ==> forall i :: 0 <= i < |entries| ==> entries[i].id != id
  {
    if entries == [] then None
    else if entries[0].id == id then Some(entries[0])
    else Find(entries[1..], id)
  }

  function ReadSectionRange(a: CheckedArtifact, id: u32, start: nat, end: nat): Result<bytes> {
    match Find(a.entries, id)
    case None => Err
    case Some(e) =>
      :- Need(start <= end <= e.length && e.offset + e.length <= |a.file|);
      Ok(a.file[e.offset + start..e.offset + end])
  }

  function ReadSection(a: CheckedArtifact, id: u32): Result<bytes> {
    match Find(a.entries, id)
    case None => Err
    case Some(e) => ReadSectionRange(a, id, 0, e.length)
  }

  // ----- The loader undoes the writer -----

  lemma {:induction false} ParseEntryBytes(e: Entry)
    ensures ParseEntry(EntryBytes(e)) == e && Get32(EntryBytes(e), 4) == 0
  {
    var s := EntryBytes(e);
    assert s[0..4] == Put32(e.id);
    assert s[4..8] == Put32(0);
    assert s[8..16] == Put64(e.offset);
    assert s[16..24] == Put64(e.length);
    assert s[24..32] == Put64(e.elemCount);
  }

  lemma {:induction false} ParseTableBytes(entries: seq<Entry>, table: bytes, i: nat)
    requires table == Flat(EntriesBytes(entries)) && i <= |entries|
    requires |table| == |entries| * 32
    ensures ParseTable(table, |entries|, i) == Ok(entries[i..])
    decreases |entries| - i
  {
    if i < |entries| {
      RecordAt(EntriesBytes(entries), 32, i);
      assert table[i * 32..i * 32 + 32] == EntryBytes(entries[i]);
      ParseEntryBytes(entries[i]);
      ParseTableBytes(entries, table, i + 1);
      assert entries[i..] == [entries[i]] + entries[i + 1..];
    } else {
      assert entries[i..] == [];
    }
  }

  predicate InFileOrder(entries: seq<Entry>) {
    forall i, j :: 0 <= i < j < |entries| ==> entries[i].offset + entries[i].length <= entries[j].offset
  }

  /** Ranges already laid out one after another are left in place by the sort. */
  lemma {:induction false} RangesInPlace(entries: seq<Entry>)
    requires InFileOrder(entries)
    ensures |SortedRanges(entries)| == |entries|
    ensures forall i :: 0 <= i < |entries| ==>
      SortedRanges(entries)[i] == (entries[i].offset, entries[i].offset + entries[i].length)
  {
    if entries != [] {
      var tail := entries[1..];
      RangesInPlace(tail);
      if tail != [] {
        assert SortedRanges(tail)[0].0 == entries[1].offset;
      }
      assert SortedRanges(entries) ==
        [(entries[0].offset, entries[0].offset + entries[0].length)] + SortedRanges(tail);
    }
  }

  lemma {:induction false} FindUnique(entries: seq<Entry>, i: nat)
    requires i < |entries|
    requires forall j, k :: 0 <= j < k < |entries| ==> entries[j].id < entries[k].id
    ensures Find(entries, entries[i].id) == Some(entries[i])
    decreases i
  {
    if i > 0 {
      assert entries[1..][i - 1] == entries[i];
      FindUnique(entries[1..], i - 1);
    }
  }

  /** The header fields read back; the table and its CRC agree. */
  lemma {:induction false} HeaderReads(spec: Spec, crc: Crc, flags: u32, entries: seq<Entry>, file: bytes)
    requires |spec.magic| == 8 && 0 < |entries| <= MAX_SECTIONS
    requires MaskedBy(flags, spec.allowedFlags) && |file| <= spec.maxFileLen
    requires HeaderBytes(spec, crc, flags, |file|, entries) <= file
    ensures ParseHeader(spec, crc, file) == Ok((flags, |entries|))
    ensures file[COMMON_HEADER_BYTES..HeaderLen(|entries|)] == Flat(EntriesBytes(entries))
  {
    var prefix := FixedPrefix(spec, flags, |file|, |entries|);
    var table := Flat(EntriesBytes(entries));
    var header := HeaderBytes(spec, crc, flags, |file|, entries);
    assert header == prefix + Put32(crc(prefix + table)) + table;
    assert file[..28] == header[..28] == prefix;
    assert file[28..32] == header[28..32] == Put32(crc(prefix + table));
    assert file[32..HeaderLen(|entries|)] == header[32..] == table;
    assert file[..8] == prefix[..8] == spec.magic;
    assert file[8..12] == prefix[8..12] == Put32(FORMAT_VERSION);
    assert file[12..16] == prefix[12..16] == Put32(flags);
    assert file[16..24] == prefix[16..24] == Put64(|file|);
    assert file[24..28] == prefix[24..28] == Put32(|entries|);
  }

  /** An entry of the opened table points at the section's own bytes, aligned as asked. */
  predicate EntryFaithful(file: bytes, e: Entry, s: Section, alignment: nat)
    requires alignment > 0
  {
    && e.id == s.id
    && e.elemCount == s.elemCount
    && e.length == |s.content|
    && e.offset % alignment == 0
    && e.offset + e.length <= |file|
    && file[e.offset..e.offset + e.length] == s.content
  }

  /** What opening must find: the flags and one faithful entry a section, in id order. */
  predicate Faithful(a: CheckedArtifact, flags: u32, ordered: seq<Section>, alignments: seq<(u32, nat)>)
    requires AllPowersOfTwo(alignments)
  {
    && a.flags == flags
    && |a.entries| == |ordered|
    && (forall i, j :: 0 <= i < j < |a.entries| ==> a.entries[i].id < a.entries[j].id)
    && forall i :: 0 <= i < |ordered| ==>
         EntryFaithful(a.file, a.entries[i], ordered[i], AlignmentOf(alignments, ordered[i].id))
  }

  lemma {:induction false} OffsetsEight(offset: nat, a: nat)
    requires PowerOfTwoAlignment(a) && offset % a == 0
    ensures offset % 8 == 0
  {
    assert PowerOfTwo(a / 2) && PowerOfTwo(a / 2 / 2) && PowerOfTwo(a / 2 / 2 / 2);
    var k, m := offset / a, a / 8;
    assert offset == k * a && a == 8 * m;
    assert offset == 8 * (k * m);
  }

  /** The table the writer emits passes every structural test of the loader. */
  lemma {:induction false} TableAccepted(
    spec: Spec, flags: u32, ordered: seq<Section>, offsets: seq<nat>, alignments: seq<(u32, nat)>, entries: seq<Entry>,
    from: nat)
    requires Writable(spec, flags, ordered, alignments)
    requires |ordered| == |offsets| == |entries|
    requires Placeable(from, Contents(ordered), offsets)
    requires forall i :: 0 <= i < |ordered| ==> offsets[i] % 8 == 0
    requires forall i :: 0 <= i < |ordered| ==> offsets[i] + |ordered[i].content| < U64_LIMIT
    requires entries == EntryList(ordered, offsets)
    ensures TableAcceptable(spec, entries, from, FileLen(ordered, offsets))
  {
    hide MaskedBy, KnownSection, AlignmentsValid, Contents;
    OffsetsBelowEnd(from, ordered, offsets);
    RangesInPlace(entries);
    forall i | 0 <= i < |spec.required| ensures Find(entries, spec.required[i]).Some? {
      RequiredPresent(ordered, entries, spec.required[i]);
    }
  }

  lemma {:induction false} RequiredPresent(ordered: seq<Section>, entries: seq<Entry>, id: u32)
    requires |ordered| == |entries|
    requires forall i :: 0 <= i < |ordered| ==> entries[i].id == ordered[i].id
    requires HasId(ordered, id)
    ensures Find(entries, id).Some?
  {
  }

  /** In the laid-out file every entry points at its own section. */
  lemma {:induction false} EntryLaidOut(
    header: bytes, ordered: seq<Section>, offsets: seq<nat>, alignments: seq<(u32, nat)>, file: bytes, i: nat)
    requires AllPowersOfTwo(alignments) && i < |ordered|
    requires offsets == SectionOffsets(|header|, ordered, alignments)
    requires Placeable(|header|, Contents(ordered), offsets)
    requires forall k :: 0 <= k < |ordered| ==> offsets[k] + |ordered[k].content| < U64_LIMIT
    requires file == Place(header, Contents(ordered), offsets)
    ensures offsets[i] % 8 == 0
    ensures EntryFaithful(file, EntryList(ordered, offsets)[i], ordered[i], AlignmentOf(alignments, ordered[i].id))
  {
    OffsetsPlaceable(|header|, ordered, alignments);
    OffsetsEight(offsets[i], AlignmentOf(alignments, ordered[i].id));
    PlaceReads(header, Contents(ordered), offsets, i, file);
  }

  lemma {:induction false} OpenOfParts(spec: Spec, crc: Crc, flags: u32, entries: seq<Entry>, file: bytes)
    requires |spec.magic| == 8 && 0 < |entries| <= MAX_SECTIONS
    requires MaskedBy(flags, spec.allowedFlags) && |file| <= spec.maxFileLen
    requires HeaderBytes(spec, crc, flags, |file|, entries) <= file
    requires TableAcceptable(spec, entries, HeaderLen(|entries|), |file|)
    ensures Open(spec, crc, file) == Ok(CheckedArtifact(file, flags, entries))
  {
    HeaderReads(spec, crc, flags, entries, file);
    FlatWide(EntriesBytes(entries), 32);
    ParseTableBytes(entries, file[32..HeaderLen(|entries|)], 0);
    assert entries[0..] == entries;
  }

  lemma {:induction false} LaidOutOpens(
    spec: Spec, crc: Crc, flags: u32, ordered: seq<Section>, offsets: seq<nat>, alignments: seq<(u32, nat)>,
    header: bytes, file: bytes)
    requires |spec.magic| == 8 && Writable(spec, flags, ordered, alignments)
    requires offsets == SectionOffsets(|header|, ordered, alignments)
    requires Placeable(|header|, Contents(ordered), offsets)
    requires forall k :: 0 <= k < |ordered| ==> offsets[k] + |ordered[k].content| < U64_LIMIT
    requires file == Place(header, Contents(ordered), offsets)
    requires |file| == FileLen(ordered, offsets) <= spec.maxFileLen
    requires header == HeaderBytes(spec, crc, flags, |file|, EntryList(ordered, offsets))
    ensures Open(spec, crc, file).Ok?
    ensures Faithful(Open(spec, crc, file).value, flags, ordered, alignments)
  {
    var entries := EntryList(ordered, offsets);
    PlaceKeepsPrefix(header, Contents(ordered), offsets);
    forall i | 0 <= i < |ordered|
      ensures offsets[i] % 8 == 0
      ensures EntryFaithful(file, entries[i], ordered[i], AlignmentOf(alignments, ordered[i].id))
    {
      EntryLaidOut(header, ordered, offsets, alignments, file, i);
    }
    TableAccepted(spec, flags, ordered, offsets, alignments, entries, |header|);
    OpenOfParts(spec, crc, flags, entries, file);
  }

  /** Opening a written artifact succeeds and finds every section as it was handed to the writer. */
  lemma {:induction false} ArtifactRoundTrip(
    spec: Spec, crc: Crc, flags: u32, sections: seq<Section>, alignments: seq<(u32, nat)>, file: bytes)
    requires |spec.magic| == 8
    requires EncodeWithAlignments(spec, crc, flags, sections, alignments) == Ok(file)
    ensures AllPowersOfTwo(alignments)
    ensures Open(spec, crc, file).Ok?
    ensures Faithful(Open(spec, crc, file).value, flags, SortById(sections), alignments)
  {
    var ordered := SortById(sections);
    var from := HeaderLen(|ordered|);
    var offsets := SectionOffsets(from, ordered, alignments);
    OffsetsPlaceable(from, ordered, alignments);
    OffsetsBelowEnd(from, ordered, offsets);
    var header := HeaderBytes(spec, crc, flags, FileLen(ordered, offsets), EntryList(ordered, offsets));
    assert file == Place(header, Contents(ordered), offsets);
    LaidOutOpens(spec, crc, flags, ordered, offsets, alignments, header, file);
  }

  /** Reading a section of the opened artifact returns what was written under its id. */
  lemma {:induction false} SectionReads(
    a: CheckedArtifact, flags: u32, ordered: seq<Section>, alignments: seq<(u32, nat)>, i: nat)
    requires AllPowersOfTwo(alignments)
    requires Faithful(a, flags, ordered, alignments) && i < |ordered|
    ensures Find(a.entries, ordered[i].id) == Some(a.entries[i])
    ensures ReadSection(a, ordered[i].id) == Ok(ordered[i].content)
  {
    FindUnique(a.entries, i);
    var e := a.entries[i];
    assert a.file[e.offset + 0..e.offset + e.length] == a.file[e.offset..e.offset + e.length];
  }

  // ----- Reading sections back by id -----

  lemma {:induction false} SectionFound(
    art: CheckedArtifact, flags: u32, sections: seq<Section>, alignments: seq<(u32, nat)>, s: Section)
    requires AllPowersOfTwo(alignments)
    requires Faithful(art, flags, SortById(sections), alignments) && s in sections
    ensures Find(art.entries, s.id).Some? && ReadSection(art, s.id) == Ok(s.content)
    ensures var e := Find(art.entries, s.id).value;
      e.elemCount == s.elemCount && e.offset % AlignmentOf(alignments, s.id) == 0
  {
    hide Sort;
    var ordered := SortById(sections);
    SortMember(sections, (x: Section) => [x.id], s);
    var i :| 0 <= i < |ordered| && ordered[i] == s;
    SectionReads(art, flags, ordered, alignments, i);
    assert EntryFaithful(art.file, art.entries[i], ordered[i], AlignmentOf(alignments, ordered[i].id));
  }

  lemma {:induction false} SectionMissing(
    art: CheckedArtifact, flags: u32, sections: seq<Section>, alignments: seq<(u32, nat)>, id: u32)
    requires AllPowersOfTwo(alignments)
    requires Faithful(art, flags, SortById(sections), alignments)
    requires Find(art.entries, id).Some?
    ensures exists s :: s in sections && s.id == id
  {
    hide Sort;
    var ordered := SortById(sections);
    var i :| 0 <= i < |art.entries| && art.entries[i] == Find(art.entries, id).value;
    assert EntryFaithful(art.file, art.entries[i], ordered[i], AlignmentOf(alignments, ordered[i].id));
    SortMember(sections, (x: Section) => [x.id], ordered[i]);
  }
}
