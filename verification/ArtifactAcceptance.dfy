/** Exactly which files `graph_artifact.rs` opens, said about their bytes. */
module ArtifactAcceptance {
  import opened Wrappers
  import opened Bytes
  import opened Ordering
  import opened Artifact

  // ----- The condition -----

  /** The number of sections the header states. */
  function Sections(file: bytes): nat
    requires 32 <= |file|
  {
    Get32(file, 24)
  }

  /** Entry `i` of the table, wherever it points. */
  function EntryOf(file: bytes, i: nat): Entry
    requires 64 + 32 * i <= |file|
  {
    Entry(Get32(file, 32 + 32 * i), Get64(file, 40 + 32 * i), Get64(file, 48 + 32 * i), Get64(file, 56 + 32 * i))
  }

  predicate HeaderAccepted(spec: Spec, crc: Crc, file: bytes) {
    && 32 <= |file| <= spec.maxFileLen
    && file[..8] == spec.magic && Get32(file, 8) == 1
    && MaskedBy(Get32(file, 12), spec.allowedFlags)
    && Get64(file, 16) == |file|
    && 1 <= Sections(file) <= 64 && 32 + 32 * Sections(file) <= |file|
    && crc(file[..28] + file[32..32 + 32 * Sections(file)]) == Get32(file, 28)
  }

  /** The entries of the table, in order. */
  function Listed(file: bytes): (r: seq<Entry>)
    requires 32 <= |file| && 32 + 32 * Sections(file) <= |file|
    ensures |r| == Sections(file) && forall i :: 0 <= i < |r| ==> r[i] == EntryOf(file, i)
  {
    seq(Sections(file), i requires 0 <= i < Sections(file) => EntryOf(file, i))
  }

  predicate Apart(a: Entry, b: Entry) {
    a.offset + a.length <= b.offset || b.offset + b.length <= a.offset
  }

  predicate EntriesApart(entries: seq<Entry>) {
    forall i, j :: 0 <= i < j < |entries| ==> Apart(entries[i], entries[j])
  }

  predicate SomeEnds(entries: seq<Entry>, fileLen: nat) {
    exists i :: 0 <= i < |entries| && entries[i].offset + entries[i].length == fileLen
  }

  predicate SomeHas(entries: seq<Entry>, id: u32) {
    exists i :: 0 <= i < |entries| && entries[i].id == id
  }

  /** Sections of kinds the file may have, by ascending id, none missing, each on a multiple of eight between the table
      and the end, no two overlapping, one of them ending where the file does. */
  predicate TableAccepted(spec: Spec, file: bytes)
    requires 32 <= |file| && 32 + 32 * Sections(file) <= |file|
  {
    var entries := Listed(file);
    && (forall i :: 0 <= i < |entries| ==> Get32(file, 36 + 32 * i) == 0)
    && (forall i :: 0 <= i < |entries| ==> KnownSection(spec, entries[i].id))
    && (forall i, j :: 0 <= i < j < |entries| ==> entries[i].id < entries[j].id)
    && (forall id :: id in spec.required ==> SomeHas(entries, id))
    && (forall i :: 0 <= i < |entries| ==> entries[i].offset % 8 == 0)
    && (forall i :: 0 <= i < |entries| ==>
          32 + 32 * |entries| <= entries[i].offset && entries[i].offset + entries[i].length <= |file|)
    && EntriesApart(entries) && SomeEnds(entries, |file|)
  }

  // ----- The table -----

  lemma {:induction false} EntryParsed(file: bytes, n: nat, i: nat)
    requires i < n && 32 + 32 * n <= |file|
    ensures var raw := file[32..32 + 32 * n][i * 32..i * 32 + 32];
      ParseEntry(raw) == EntryOf(file, i) && Get32(raw, 4) == Get32(file, 36 + 32 * i)
  {
    hide FromLE;
    var raw := file[32..32 + 32 * n][i * 32..i * 32 + 32];
    SubSlice(file, 32, 32 + 32 * n, i * 32, i * 32 + 32);
    var at := 32 + 32 * i;
    assert raw == file[at..at + 32];
    SubSlice(file, at, at + 32, 0, 4);
    SubSlice(file, at, at + 32, 4, 8);
    SubSlice(file, at, at + 32, 8, 16);
    SubSlice(file, at, at + 32, 16, 24);
    SubSlice(file, at, at + 32, 24, 32);
  }

  predicate ReservedZero(file: bytes, n: nat, i: nat)
    requires 32 + 32 * n <= |file|
  {
    forall k :: i <= k < n ==> Get32(file, 36 + 32 * k) == 0
  }

  lemma {:induction false} TableParsed(file: bytes, n: nat, i: nat)
    requires i <= n && 32 + 32 * n <= |file|
    ensures var r := ParseTable(file[32..32 + 32 * n], n, i);
      && (r.Ok? <==> ReservedZero(file, n, i))
      && (r.Ok? ==> forall k :: i <= k < n ==> r.value[k - i] == EntryOf(file, k))
    decreases n - i
  {
    hide Get32, ParseEntry, EntryOf;
    if i < n {
      EntryParsed(file, n, i);
      TableParsed(file, n, i + 1);
      var table := file[32..32 + 32 * n];
      var r := ParseTable(table, n, i);
      if r.Ok? {
        var rest := ParseTable(table, n, i + 1).value;
        forall k | i <= k < n ensures r.value[k - i] == EntryOf(file, k) {
          if k > i {
            assert r.value[k - i] == rest[k - (i + 1)];
          }
        }
      }
    }
  }

  // ----- Tiling -----

  predicate Below(a: (nat, nat), b: (nat, nat)) {
    a.0 < b.0 || (a.0 == b.0 && a.1 <= b.1)
  }

  predicate Ordered(ranges: seq<(nat, nat)>) {
    forall i, j :: 0 <= i < j < |ranges| ==> Below(ranges[i], ranges[j])
  }

  function RangeOf(e: Entry): (nat, nat) {
    (e.offset, e.offset + e.length)
  }

  lemma {:induction false} InsertHolds(r: (nat, nat), sorted: seq<(nat, nat)>)
    ensures multiset(InsertRange(r, sorted)) == multiset(sorted) + multiset{r}
  {
    if !(sorted == [] || r.0 < sorted[0].0 || (r.0 == sorted[0].0 && r.1 <= sorted[0].1)) {
      assert sorted == [sorted[0]] + sorted[1..];
      InsertHolds(r, sorted[1..]);
    }
  }

  lemma {:induction false} OrderedCons(head: (nat, nat), tail: seq<(nat, nat)>)
    requires Ordered(tail) && forall i :: 0 <= i < |tail| ==> Below(head, tail[i])
    ensures Ordered([head] + tail)
  {
    hide Below;
    var all := [head] + tail;
    forall i, j | 0 <= i < j < |all| ensures Below(all[i], all[j]) {
      assert all[j] == tail[j - 1] && (i > 0 ==> all[i] == tail[i - 1]);
    }
  }

  lemma {:induction false} OrderedTail(sorted: seq<(nat, nat)>)
    requires Ordered(sorted) && sorted != []
    ensures Ordered(sorted[1..]) && forall i :: 0 <= i < |sorted[1..]| ==> Below(sorted[0], sorted[1..][i])
  {
    hide Below;
    var rest := sorted[1..];
    assert forall i :: 0 <= i < |rest| ==> rest[i] == sorted[i + 1];
  }

  lemma {:induction false} InsertOrdered(r: (nat, nat), sorted: seq<(nat, nat)>)
    requires Ordered(sorted)
    ensures Ordered(InsertRange(r, sorted))
  {
    hide Ordered;
    if sorted == [] {
      OneOrdered(r);
      assert [r] + sorted == [r];
    } else {
      OrderedTail(sorted);
      var rest := sorted[1..];
      if r.0 < sorted[0].0 || (r.0 == sorted[0].0 && r.1 <= sorted[0].1) {
        forall i | 0 <= i < |sorted| ensures Below(r, sorted[i]) {
          assert i > 0 ==> sorted[i] == rest[i - 1];
        }
        OrderedCons(r, sorted);
      } else {
        InsertOrdered(r, rest);
        var inner := InsertRange(r, rest);
        InsertHolds(r, rest);
        forall i | 0 <= i < |inner| ensures Below(sorted[0], inner[i]) {
          assert inner[i] in multiset(inner);
          assert inner[i] == r || inner[i] in rest;
        }
        OrderedCons(sorted[0], inner);
      }
    }
  }

  lemma {:induction false} OneOrdered(r: (nat, nat))
    ensures Ordered([r])
  {
  }

  function Ranges(entries: seq<Entry>): (r: seq<(nat, nat)>)
    ensures |r| == |entries| && forall i :: 0 <= i < |r| ==> r[i] == RangeOf(entries[i])
  {
    seq(|entries|, i requires 0 <= i < |entries| => RangeOf(entries[i]))
  }

  lemma {:induction false} RangesSorted(entries: seq<Entry>)
    ensures Ordered(SortedRanges(entries)) && multiset(SortedRanges(entries)) == multiset(Ranges(entries))
  {
    if entries != [] {
      RangesSorted(entries[1..]);
      InsertOrdered(RangeOf(entries[0]), SortedRanges(entries[1..]));
      InsertHolds(RangeOf(entries[0]), SortedRanges(entries[1..]));
      assert Ranges(entries) == [RangeOf(entries[0])] + Ranges(entries[1..]);
    }
  }

  predicate RangesApart(a: (nat, nat), b: (nat, nat)) {
    a.1 <= b.0 || b.1 <= a.0
  }

  predicate AllApart(ranges: seq<(nat, nat)>) {
    forall i, j :: 0 <= i < j < |ranges| ==> RangesApart(ranges[i], ranges[j])
  }

  predicate Forward(ranges: seq<(nat, nat)>) {
    forall i :: 0 <= i < |ranges| ==> ranges[i].0 <= ranges[i].1
  }

  /** Neighbours that do not overlap leave any two apart, and the last one ends last. */
  lemma {:induction false} ChainEnds(ranges: seq<(nat, nat)>, i: nat, j: nat)
    requires Forward(ranges) && i < j < |ranges| && forall k :: 0 <= k < |ranges| - 1 ==> NoOverlap(ranges, k)
    ensures ranges[i].1 <= ranges[j].0
    decreases j - i
  {
    assert NoOverlap(ranges, j - 1);
    if i < j - 1 {
      ChainEnds(ranges, i, j - 1);
    }
  }

  lemma {:induction false} TiledExact(ranges: seq<(nat, nat)>, fileLen: nat)
    requires Ordered(ranges) && Forward(ranges) && forall i :: 0 <= i < |ranges| ==> ranges[i].1 <= fileLen
    ensures Tiled(ranges, fileLen) <==> AllApart(ranges) && exists i :: 0 <= i < |ranges| && ranges[i].1 == fileLen
  {
    var n := |ranges|;
    if Tiled(ranges, fileLen) {
      forall i, j | 0 <= i < j < n ensures RangesApart(ranges[i], ranges[j]) {
        ChainEnds(ranges, i, j);
      }
      assert ranges[n - 1].1 == fileLen;
    }
    if AllApart(ranges) && exists i :: 0 <= i < n && ranges[i].1 == fileLen {
      forall k | 0 <= k < n - 1 ensures NoOverlap(ranges, k) {
        assert RangesApart(ranges[k], ranges[k + 1]) && Below(ranges[k], ranges[k + 1]);
      }
      var i :| 0 <= i < n && ranges[i].1 == fileLen;
      if i < n - 1 {
        ChainEnds(ranges, i, n - 1);
      }
    }
  }

  lemma {:induction false} ApartAnyOrder(a: seq<(nat, nat)>, b: seq<(nat, nat)>)
    requires multiset(a) == multiset(b) && AllApart(a)
    ensures AllApart(b)
  {
    forall i, j | 0 <= i < j < |b| ensures RangesApart(b[i], b[j]) {
      if b[i] == b[j] {
        CountedTwice(b, i, j);
        var k, l := TwiceCounted(a, b[i]);
        assert RangesApart(a[k], a[l]);
      } else {
        var k := SameMember(b, a, i);
        var l := SameMember(b, a, j);
        assert k < l ==> RangesApart(a[k], a[l]);
        assert l < k ==> RangesApart(a[l], a[k]);
      }
    }
  }

  lemma {:induction false} EndsAnyOrder(a: seq<(nat, nat)>, b: seq<(nat, nat)>, fileLen: nat)
    requires multiset(a) == multiset(b) && exists i :: 0 <= i < |a| && a[i].1 == fileLen
    ensures exists i :: 0 <= i < |b| && b[i].1 == fileLen
  {
    var i :| 0 <= i < |a| && a[i].1 == fileLen;
    var j := SameMember(a, b, i);
    assert b[j].1 == fileLen;
  }

  /** The sorted ranges tile the file exactly when no two sections overlap and one of them ends where the file does. */
  lemma {:induction false} TilingExact(entries: seq<Entry>, fileLen: nat)
    requires forall i :: 0 <= i < |entries| ==> entries[i].offset + entries[i].length <= fileLen
    ensures Tiled(SortedRanges(entries), fileLen) <==> EntriesApart(entries) && SomeEnds(entries, fileLen)
  {
    hide SortedRanges, Tiled, Ordered;
    var sorted, ranges := SortedRanges(entries), Ranges(entries);
    RangesSorted(entries);
    forall i | 0 <= i < |sorted| ensures sorted[i].0 <= sorted[i].1 <= fileLen {
      var j := SameMember(sorted, ranges, i);
    }
    TiledExact(sorted, fileLen);
    if AllApart(sorted) {
      ApartAnyOrder(sorted, ranges);
    }
    if AllApart(ranges) {
      ApartAnyOrder(ranges, sorted);
    }
    if exists i :: 0 <= i < |sorted| && sorted[i].1 == fileLen {
      EndsAnyOrder(sorted, ranges, fileLen);
    }
    if exists i :: 0 <= i < |ranges| && ranges[i].1 == fileLen {
      EndsAnyOrder(ranges, sorted, fileLen);
    }
    RangesAre(entries, fileLen);
  }

  lemma {:induction false} RangesAre(entries: seq<Entry>, fileLen: nat)
    ensures AllApart(Ranges(entries)) <==> EntriesApart(entries)
    ensures (exists i :: 0 <= i < |Ranges(entries)| && Ranges(entries)[i].1 == fileLen) <==> SomeEnds(entries, fileLen)
  {
    var ranges := Ranges(entries);
    forall i, j | 0 <= i < j < |entries| ensures RangesApart(ranges[i], ranges[j]) <==> Apart(entries[i], entries[j]) {
    }
    if SomeEnds(entries, fileLen) {
      var i :| 0 <= i < |entries| && entries[i].offset + entries[i].length == fileLen;
      assert ranges[i].1 == fileLen;
    }
  }

  // ----- Opening -----

  lemma {:induction false} HeaderExact(spec: Spec, crc: Crc, file: bytes)
    ensures ParseHeader(spec, crc, file).Ok? <==> HeaderAccepted(spec, crc, file)
    ensures ParseHeader(spec, crc, file).Ok? ==>
      ParseHeader(spec, crc, file).value == (Get32(file, 12), Sections(file))
  {
    hide Get32, Get64, MaskedBy;
  }

  lemma {:induction false} RequiredExact(spec: Spec, entries: seq<Entry>)
    ensures (forall i :: 0 <= i < |spec.required| ==> Find(entries, spec.required[i]).Some?) <==>
      forall id :: id in spec.required ==> SomeHas(entries, id)
  {
    forall id ensures Find(entries, id).Some? <==> SomeHas(entries, id) {
    }
    if forall i :: 0 <= i < |spec.required| ==> Find(entries, spec.required[i]).Some? {
      forall id | id in spec.required ensures SomeHas(entries, id) {
        var k :| 0 <= k < |spec.required| && spec.required[k] == id;
        assert Find(entries, spec.required[k]).Some?;
      }
    }
    if forall id :: id in spec.required ==> SomeHas(entries, id) {
      forall i | 0 <= i < |spec.required| ensures Find(entries, spec.required[i]).Some? {
        assert SomeHas(entries, spec.required[i]);
      }
    }
  }

  lemma {:induction false} TableExact(spec: Spec, file: bytes)
    requires 32 <= |file| && 32 + 32 * Sections(file) <= |file|
    ensures TableAccepted(spec, file) <==>
      && ReservedZero(file, Sections(file), 0)
      && TableAcceptable(spec, Listed(file), 32 + 32 * Sections(file), |file|)
  {
    hide Get32, Listed, Tiled, SortedRanges, Find, KnownSection, EntriesApart, SomeEnds, SomeHas;
    var entries := Listed(file);
    RequiredExact(spec, entries);
    if forall i :: 0 <= i < |entries| ==> entries[i].offset + entries[i].length <= |file| {
      TilingExact(entries, |file|);
    }
  }

  /** A file opens exactly when header and table are accepted, with the flags and entries it states. */
  lemma {:induction false} OpenExact(spec: Spec, crc: Crc, file: bytes)
    ensures Open(spec, crc, file).Ok? <==> HeaderAccepted(spec, crc, file) && TableAccepted(spec, file)
    ensures Open(spec, crc, file).Ok? ==>
      Open(spec, crc, file).value == CheckedArtifact(file, Get32(file, 12), Listed(file))
  {
    hide Get32, ParseHeader, ParseTable, TableAcceptable, TableAccepted, HeaderAccepted, ReservedZero;
    HeaderExact(spec, crc, file);
    if HeaderAccepted(spec, crc, file) {
      HeaderGives(spec, crc, file);
      var n := Sections(file);
      TableParsed(file, n, 0);
      TableExact(spec, file);
      var r := ParseTable(file[32..32 + 32 * n], n, 0);
      if r.Ok? {
        forall k | 0 <= k < n ensures r.value[k] == EntryOf(file, k) {
          assert r.value[k - 0] == EntryOf(file, k);
        }
        assert r.value == Listed(file);
      }
    }
  }

  lemma {:induction false} HeaderGives(spec: Spec, crc: Crc, file: bytes)
    requires HeaderAccepted(spec, crc, file)
    ensures 32 <= |file| && 1 <= Sections(file) <= 64 && 32 + 32 * Sections(file) <= |file|
  {
  }
}
