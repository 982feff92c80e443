/** Exactly which built adjacencies `write` in `graph_edge.rs` stores. Of its
    many size checks only five can fail: the number of namespaces, the number of
    rows, the places and lengths of the names, an empty tenant name, and a row
    that needs too long an overflow chain. Every other size follows from the
    builder's limit on the number of entries. */
module WriteAcceptance {
  import opened Wrappers
  import opened Bytes
  import opened Ordering
  import opened TaggedNeighbors
  import opened GroupedSections
  import opened Namespaces
  import opened RowChunking
  import opened EdgeTuples
  import opened EdgeColumns
  import opened EdgeOverflow
  import opened EdgeGroups
  import opened AdjacencyBuilder
  import opened AdjacencyFile
  import Artifact
  import BuildAcceptance

  // ----- The condition -----

  /** The row can be cut into at most 1025 parts that each fit a chunk: one stored inline, the others a chain. */
  ghost predicate RowStorable(row: seq<Edge>, l: Layout) {
    exists parts: seq<seq<Edge>> :: |parts| <= 1025 && Cut(parts, row, TupleLen(l))
  }

  ghost predicate RowsStorable(rows: seq<Row>, l: Layout) {
    forall i :: 0 <= i < |rows| ==> RowStorable(rows[i].outgoing, l) && RowStorable(rows[i].incoming, l)
  }

  function RowTotal(groups: seq<NamespaceGroup>): nat {
    if groups == [] then 0 else |groups[0].rows| + RowTotal(groups[1..])
  }

  /** Bytes of all tenant names. */
  function NameTotal(groups: seq<NamespaceGroup>): nat {
    if groups == [] then 0 else |NameOf(groups[0].namespace)| + NameTotal(groups[1..])
  }

  /** The namespace records have room: for their number, their rows, and where each name begins and how long it is. */
  predicate NamespacesFit(groups: seq<NamespaceGroup>) {
    && |groups| <= 178_956_970
    && RowTotal(groups) < U32_LIMIT
    && forall i :: 0 <= i < |groups| ==>
         && groups[i].namespace != Tenant([])
         && NameTotal(groups[..i]) < U32_LIMIT
         && |NameOf(groups[i].namespace)| < U32_LIMIT
  }

  ghost predicate FileFits(a: Adjacency) {
    && NamespacesFit(a.groups)
    && forall i :: 0 <= i < |a.groups| ==> RowsStorable(a.groups[i].rows, a.layout)
  }

  // ----- Packing one row -----

  lemma {:induction false} TuplesSmall(edges: seq<Edge>, l: Layout)
    ensures forall x :: x in edges ==> 0 < TupleLen(l)(x) <= 27
  {
    forall x | x in edges ensures 0 < TupleLen(l)(x) <= 27 {
      TupleLenBounds(l, x);
    }
  }

  lemma {:induction false} StorableExact(row: seq<Edge>, l: Layout)
    ensures RowStorable(row, l) <==> |Pack(row, TupleLen(l))| <= 1025
  {
    hide TupleLen, Pack;
    TuplesSmall(row, l);
    PackAccepted(row, TupleLen(l));
    var parts := Pack(row, TupleLen(l));
    forall i | 0 <= i < |parts| ensures Sum(parts[i], TupleLen(l)) <= CHUNK_PAYLOAD_BYTES {
      AcceptedPart(parts, TupleLen(l), i);
    }
    assert Cut(parts, row, TupleLen(l));
    if RowStorable(row, l) {
      var other: seq<seq<Edge>> :| |other| <= 1025 && Cut(other, row, TupleLen(l));
      PackLeast(other, row, TupleLen(l));
    }
  }

  /** Chunks of small tuples hold at least two entries each, the last one excepted. */
  lemma {:induction false} PackSparse<T>(items: seq<T>, len: T -> nat)
    requires forall x :: x in items ==> 0 < len(x) <= 27
    ensures 2 * |Pack(items, len)| <= |items| + 1
    decreases |items|
  {
    if items != [] {
      var k := PrefixCount(items, len, 0);
      PrefixStart(items, len);
      var rest := items[k..];
      assert forall x :: x in rest ==> x in items;
      PackSparse(rest, len);
    }
  }

  lemma {:induction false} PrefixStart<T>(items: seq<T>, len: T -> nat)
    requires forall x :: x in items ==> 0 < len(x) <= 27
    ensures items != [] ==> PrefixCount(items, len, 0) > 0
    ensures PrefixCount(items, len, 0) >= 2 || PrefixCount(items, len, 0) == |items|
  {
    if items != [] {
      assert items[0] in items;
      assert PrefixCount(items, len, 0) == 1 + PrefixCount(items[1..], len, len(items[0]));
      if |items| > 1 {
        assert items[1..][0] == items[1] && items[1] in items;
      }
    }
  }

  /** The chain of a row that overflows. */
  lemma {:induction false} RowSplit(row: seq<Edge>, l: Layout)
    requires InlineCount(row, l) < |row|
    ensures var suffix := row[InlineCount(row, l)..];
      && |Pack(row, TupleLen(l))| == 1 + |Pack(suffix, TupleLen(l))|
      && 0 < 2 * |Pack(suffix, TupleLen(l))| <= |row|
  {
    hide TupleLen;
    TuplesSmall(row, l);
    PrefixStart(row, TupleLen(l));
    var suffix := row[InlineCount(row, l)..];
    assert forall x :: x in suffix ==> x in row;
    PackSparse(suffix, TupleLen(l));
  }

  /** A row that does not overflow is one part or none. */
  lemma {:induction false} RowInline(row: seq<Edge>, l: Layout)
    requires InlineCount(row, l) == |row|
    ensures |Pack(row, TupleLen(l))| <= 1
  {
    hide TupleLen;
    if row != [] {
      assert row[|row|..] == [];
    }
  }

  lemma {:induction false} PartsBound<T>(parts: seq<seq<T>>, len: T -> nat)
    requires forall i :: 0 <= i < |parts| ==> Sum(parts[i], len) <= CHUNK_PAYLOAD_BYTES
    ensures Sum(Flat(parts), len) <= |parts| * 65520
  {
    if parts != [] {
      PartsBound(parts[1..], len);
      SumConcat(parts[0], Flat(parts[1..]), len);
    }
  }

  lemma {:induction false} PackBytes(edges: seq<Edge>, l: Layout)
    ensures Sum(edges, TupleLen(l)) <= |Pack(edges, TupleLen(l))| * 65520
  {
    hide TupleLen, Pack, Sum;
    TuplesSmall(edges, l);
    PackAccepted(edges, TupleLen(l));
    var parts := Pack(edges, TupleLen(l));
    forall i | 0 <= i < |parts| ensures Sum(parts[i], TupleLen(l)) <= CHUNK_PAYLOAD_BYTES {
      AcceptedPart(parts, TupleLen(l), i);
    }
    PartsBound(parts, TupleLen(l));
  }

  // ----- The chains of a group -----

  function PartCount(l: Layout): Chain -> nat {
    (c: Chain) => |PartsOf(c, l)|
  }

  lemma {:induction false} ChunksSummed(chains: seq<Chain>, i: nat, l: Layout)
    requires i <= |chains|
    ensures ChunksBefore(chains, i, l) == Sum(chains[..i], PartCount(l))
  {
    hide PartsOf;
    if i > 0 {
      ChunksSummed(chains, i - 1, l);
      assert chains[..i] == chains[..i - 1] + [chains[i - 1]];
      SumConcat(chains[..i - 1], [chains[i - 1]], PartCount(l));
      assert [chains[i - 1]][1..] == [];
    }
  }

  lemma {:induction false} SumInsert<T>(x: T, sorted: seq<T>, key: T -> Key, len: T -> nat)
    ensures Sum(Insert(x, sorted, key), len) == len(x) + Sum(sorted, len)
  {
    hide Less;
    var r := Insert(x, sorted, key);
    if sorted == [] || !Less(key(sorted[0]), key(x)) {
      assert r[1..] == sorted;
    } else {
      SumInsert(x, sorted[1..], key, len);
      assert r[1..] == Insert(x, sorted[1..], key);
    }
  }

  lemma {:induction false} SumSorted<T>(items: seq<T>, key: T -> Key, len: T -> nat)
    ensures Sum(Sort(items, key), len) == Sum(items, len)
  {
    if items != [] {
      SumSorted(items[1..], key, len);
      SumInsert(items[0], Sort(items[1..], key), key, len);
    }
  }

  /** The chunks of a direction number at most half its entries. */
  lemma {:induction false} DirectionChunks(rows: seq<seq<Edge>>, d: Direction, l: Layout, i: nat)
    requires i <= |rows| < U32_LIMIT
    ensures 2 * Sum(OverflowChains(rows, d, l, i), PartCount(l)) <= |Flat(rows[i..])|
    decreases |rows| - i
  {
    hide InlineCount, TupleLen, Pack;
    if i < |rows| {
      DirectionChunks(rows, d, l, i + 1);
      assert rows[i..][1..] == rows[i + 1..];
      var k := InlineCount(rows[i], l);
      if k < |rows[i]| {
        RowSplit(rows[i], l);
        var chain, rest := Chain(i, d, rows[i][k..]), OverflowChains(rows, d, l, i + 1);
        assert ([chain] + rest)[1..] == rest;
      }
    }
  }

  lemma {:induction false} GroupChunks(rows: seq<Row>, csc: bool, l: Layout)
    requires |rows| < U32_LIMIT
    ensures var chains := GroupChains(rows, csc, l);
      2 * ChunksBefore(chains, |chains|, l) <= |Flat(Side(rows, Outgoing))| + |Flat(Side(rows, Incoming))|
  {
    hide OverflowChains, Flat, PartCount, Side;
    var chains := GroupChains(rows, csc, l);
    var outgoing := OverflowChains(Side(rows, Outgoing), Outgoing, l, 0);
    var incoming := if csc then OverflowChains(Side(rows, Incoming), Incoming, l, 0) else [];
    DirectionChunks(Side(rows, Outgoing), Outgoing, l, 0);
    DirectionChunks(Side(rows, Incoming), Incoming, l, 0);
    assert Side(rows, Outgoing)[0..] == Side(rows, Outgoing);
    assert Side(rows, Incoming)[0..] == Side(rows, Incoming);
    SumConcat(outgoing, incoming, PartCount(l));
    SumSorted(outgoing + incoming, ChainKey, PartCount(l));
    ChunksSummed(chains, |chains|, l);
    assert chains[..|chains|] == chains;
  }

  /** Chains of one direction, row after row. */
  predicate RowsAscend(chains: seq<Chain>, d: Direction, from: nat) {
    && (forall i :: 0 <= i < |chains| ==> from <= chains[i].row && chains[i].direction == d)
    && forall i, j :: 0 <= i < j < |chains| ==> chains[i].row < chains[j].row
  }

  lemma {:induction false} RowsAscendCons(first: Chain, rest: seq<Chain>, d: Direction, from: nat)
    requires first.row == from && first.direction == d && RowsAscend(rest, d, from + 1)
    ensures RowsAscend([first] + rest, d, from)
  {
    var chains := [first] + rest;
    assert forall i :: 0 < i < |chains| ==> chains[i] == rest[i - 1];
  }

  lemma {:induction false} ChainsApart(rows: seq<seq<Edge>>, d: Direction, l: Layout, from: nat)
    requires from <= |rows| < U32_LIMIT
    ensures RowsAscend(OverflowChains(rows, d, l, from), d, from)
    decreases |rows| - from
  {
    hide InlineCount;
    if from < |rows| {
      ChainsApart(rows, d, l, from + 1);
      var k, rest := InlineCount(rows[from], l), OverflowChains(rows, d, l, from + 1);
      if k < |rows[from]| {
        RowsAscendCons(Chain(from, d, rows[from][k..]), rest, d, from);
      }
    }
  }

  /** No two chains of a group share row and direction. */
  lemma {:induction false} ChainsAscend(rows: seq<Row>, csc: bool, l: Layout)
    requires |rows| < U32_LIMIT
    ensures Ascending(GroupChains(rows, csc, l), ChainKey)
  {
    hide OverflowChains, Ascending, Sort, Distinct;
    var outgoing := OverflowChains(Side(rows, Outgoing), Outgoing, l, 0);
    var incoming := if csc then OverflowChains(Side(rows, Incoming), Incoming, l, 0) else [];
    ChainsApart(Side(rows, Outgoing), Outgoing, l, 0);
    ChainsApart(Side(rows, Incoming), Incoming, l, 0);
    KeysApart(outgoing, incoming);
    DistinctPairs(outgoing + incoming, ChainKey);
    SortAscending(outgoing + incoming, ChainKey);
  }

  lemma {:induction false} KeysApart(outgoing: seq<Chain>, incoming: seq<Chain>)
    requires RowsAscend(outgoing, Outgoing, 0) && RowsAscend(incoming, Incoming, 0)
    ensures var all := outgoing + incoming;
      forall i, j :: 0 <= i < j < |all| ==> ChainKey(all[i]) != ChainKey(all[j])
  {
    var all := outgoing + incoming;
    forall i, j | 0 <= i < j < |all| ensures ChainKey(all[i]) != ChainKey(all[j]) {
      assert all[i] == if i < |outgoing| then outgoing[i] else incoming[i - |outgoing|];
      assert all[j] == if j < |outgoing| then outgoing[j] else incoming[j - |outgoing|];
      assert all[i].row != all[j].row || all[i].direction.Code() != all[j].direction.Code();
      assert ChainKey(all[i])[0] == all[i].row && ChainKey(all[i])[1] == all[i].direction.Code();
      assert ChainKey(all[j])[0] == all[j].row && ChainKey(all[j])[1] == all[j].direction.Code();
    }
  }

  lemma {:induction false} ChainsCounted(chains: seq<Chain>, i: nat, l: Layout)
    requires i <= |chains| && forall k :: 0 <= k < |chains| ==> 0 < |PartsOf(chains[k], l)|
    ensures i <= ChunksBefore(chains, i, l)
  {
    hide PartsOf;
    if i > 0 {
      ChainsCounted(chains, i - 1, l);
    }
  }

  // ----- One group -----

  /** Rows that were built, in numbers the builder admits. */
  predicate Sized(rows: seq<Row>) {
    && |rows| < U32_LIMIT
    && |Flat(Side(rows, Outgoing))| < U32_LIMIT && |Flat(Side(rows, Incoming))| < U32_LIMIT
  }

  lemma {:induction false} InlineShort(rows: seq<seq<Edge>>, l: Layout)
    ensures |Flat(InlineRows(rows, l))| <= |Flat(rows)|
  {
    hide PrefixCount, TupleLen;
    if rows != [] {
      InlineShort(rows[1..], l);
      assert InlineRows(rows, l)[1..] == InlineRows(rows[1..], l);
    }
  }

  /** Every entry of the inline rows is an entry of a built row. */
  lemma {:induction false} InlineValid(rows: seq<seq<Edge>>, nids: seq<u64>, ordinals: seq<u32>, l: Layout)
    requires |rows| == |ordinals| && forall i :: 0 <= i < |rows| ==> AllValid(nids, ordinals[i], rows[i], l)
    ensures forall e :: e in Flat(InlineRows(rows, l)) ==> exists node :: EdgeValid(nids, node, e, l)
  {
    hide PrefixCount, TupleLen, EdgeValid;
    if rows != [] {
      InlineValid(rows[1..], nids, ordinals[1..], l);
      var inline := InlineRows(rows, l);
      assert inline[1..] == InlineRows(rows[1..], l);
      forall e | e in Flat(inline) ensures exists node :: EdgeValid(nids, node, e, l) {
        if e in inline[0] {
          var i :| 0 <= i < |inline[0]| && inline[0][i] == e;
          assert rows[0][i] == e;
          assert EdgeValid(nids, ordinals[0], e, l);
        }
      }
    }
  }

  lemma {:induction false} EncodingsShort(ns: seq<Neighbor>)
    requires AllEncodable(ns)
    ensures |Flat(Encodings(ns))| <= 11 * |ns|
  {
    hide Encoding;
    if ns != [] {
      EncodingsShort(ns[1..]);
      PredictedLength(ns[0]);
      assert Encodings(ns)[1..] == Encodings(ns[1..]);
    }
  }

  /** A column group of `n` entries stays within these bounds. */
  predicate Slim(g: Group, w: nat) {
    g.elemCount <= w + 1 && |g.payload| <= 131072 + 65536 * w
  }

  predicate ColumnsSound(c: Columns, l: Layout, w: nat) {
    && GroupValid(WidthU64, c.offsets) && Slim(c.offsets, w)
    && GroupValid(WidthTaggedNeighbor, c.neighbors) && Slim(c.neighbors, w)
    && GroupValid(WidthU64, c.edgeIds) && Slim(c.edgeIds, w)
    && GroupValid(l.TypeWidthCode(), c.types) && Slim(c.types, w)
    && (l.weighted ==> c.weights.Some? && GroupValid(WidthF32, c.weights.value) && Slim(c.weights.value, w))
  }

  lemma {:induction false} EntriesWritable(edges: seq<Edge>, nids: seq<u64>, l: Layout)
    requires forall e :: e in edges ==> exists node :: EdgeValid(nids, node, e, l)
    ensures Writable(edges, l) && AllEncodable(StoredColumn(edges))
    ensures l.weighted ==> forall i :: 0 <= i < |edges| ==> FiniteF32(edges[i].weight.value)
  {
    hide TypeCode;
    forall i | 0 <= i < |edges|
      ensures TypeCode(l, edges[i].typeId).Some? && (l.weighted ==> edges[i].weight.Some?)
      ensures Encodable(edges[i].stored)
      ensures l.weighted ==> FiniteF32(edges[i].weight.value)
    {
      assert edges[i] in edges;
      var node :| EdgeValid(nids, node, edges[i], l);
    }
  }

  lemma {:induction false} WeightsFinite(edges: seq<Edge>, l: Layout)
    requires Writable(edges, l) && l.weighted && forall i :: 0 <= i < |edges| ==> FiniteF32(edges[i].weight.value)
    ensures AllFinite(PutWords(WeightColumn(edges, l), 4))
  {
    PowValues();
    WordsRoundTrip(WeightColumn(edges, l), 4);
  }

  lemma {:induction false} ColumnsEncode(rows: seq<seq<Edge>>, nids: seq<u64>, ordinals: seq<u32>, l: Layout, w: nat)
    requires |rows| == |ordinals| && forall i :: 0 <= i < |rows| ==> AllValid(nids, ordinals[i], rows[i], l)
    requires |rows| + |Flat(rows)| <= w && |rows| < U32_LIMIT && |Flat(rows)| < U32_LIMIT
    ensures EncodeColumns(InlineRows(rows, l), l).Ok?
    ensures ColumnsSound(EncodeColumns(InlineRows(rows, l), l).value, l, w)
  {
    hide AllValid, PutWords, Flat, TypeCode, Encodings, Encodable;
    var edges := Flat(InlineRows(rows, l));
    InlineShort(rows, l);
    InlineValid(rows, nids, ordinals, l);
    EntriesWritable(edges, nids, l);
    EncodingsShort(StoredColumn(edges));
    if l.weighted {
      WeightsFinite(edges, l);
    }
  }

  lemma {:induction false} OverflowLength(chains: seq<Chain>, l: Layout)
    requires GroupFits(chains, l)
    ensures |GroupBytes(chains, l)| <= 8 + 32 * |chains| + 65536 + 65536 * ChunksBefore(chains, |chains|, l)
  {
    hide Flat, EdgeOverflow.Records, ChunkLists, GroupFits, ChunksBefore;
    FlatWide(EdgeOverflow.Records(chains, l), 32);
    ArenaWide(chains, l);
    FlatWide(Flat(ChunkLists(chains, l)), CHUNK_BYTES);
  }

  /** A chain of a built row fits its record exactly when the row is storable. */
  lemma {:induction false} ChainFitsExact(nids: seq<u64>, node: u32, row: seq<Edge>, at: u32, d: Direction, l: Layout)
    requires AllValid(nids, node, row, l) && |row| < U32_LIMIT && InlineCount(row, l) < |row|
    ensures ChainFits(Chain(at, d, row[InlineCount(row, l)..]), l) <==> RowStorable(row, l)
  {
    hide TupleLen, Pack, Sum, InlineCount, EdgeValid, RowStorable;
    var suffix := row[InlineCount(row, l)..];
    StorableExact(row, l);
    RowSplit(row, l);
    PackBytes(suffix, l);
    SuffixWritable(nids, node, row, InlineCount(row, l), l);
  }

  lemma {:induction false} SuffixWritable(nids: seq<u64>, node: u32, row: seq<Edge>, k: nat, l: Layout)
    requires AllValid(nids, node, row, l) && k <= |row|
    ensures TuplesWritable(row[k..], l)
  {
    hide TypeCode;
  }

  lemma {:induction false} RowWithinSide(rows: seq<Row>, d: Direction, i: nat)
    requires i < |rows|
    ensures |Side(rows, d)[i]| <= |Flat(Side(rows, d))|
  {
    hide Flat, Start;
    FlatSlice(Side(rows, d), i);
  }

  predicate SideBuilt(nids: seq<u64>, rows: seq<Row>, l: Layout) {
    forall i :: 0 <= i < |rows| ==>
      AllValid(nids, rows[i].node, rows[i].outgoing, l) && AllValid(nids, rows[i].node, rows[i].incoming, l)
  }

  /** Every chain fits exactly when every row is storable. */
  lemma {:induction false} ChainsFitExact(nids: seq<u64>, rows: seq<Row>, csc: bool, l: Layout)
    requires SideBuilt(nids, rows, l) && Sized(rows)
    requires !csc ==> forall i :: 0 <= i < |rows| ==> rows[i].incoming == []
    ensures (forall c :: c in GroupChains(rows, csc, l) ==> ChainFits(c, l)) <==> RowsStorable(rows, l)
  {
    hide AllValid, GroupChains, ChainFits, RowStorable, InlineCount, Flat;
    if RowsStorable(rows, l) {
      forall c | c in GroupChains(rows, csc, l) ensures ChainFits(c, l) {
        GroupChainMember(rows, csc, l, c);
        RowWithinSide(rows, c.direction, c.row);
        var row := Side(rows, c.direction)[c.row];
        ChainFitsExact(nids, rows[c.row].node, row, c.row, c.direction, l);
        assert c == Chain(c.row, c.direction, row[InlineCount(row, l)..]);
      }
    }
    if forall c :: c in GroupChains(rows, csc, l) ==> ChainFits(c, l) {
      forall i | 0 <= i < |rows| ensures RowStorable(rows[i].outgoing, l) && RowStorable(rows[i].incoming, l) {
        SideStorable(nids, rows, csc, l, i, Outgoing);
        SideStorable(nids, rows, csc, l, i, Incoming);
      }
    }
  }

  lemma {:induction false} SideStorable(nids: seq<u64>, rows: seq<Row>, csc: bool, l: Layout, i: nat, d: Direction)
    requires SideBuilt(nids, rows, l) && Sized(rows) && i < |rows|
    requires !csc ==> forall i :: 0 <= i < |rows| ==> rows[i].incoming == []
    requires forall c :: c in GroupChains(rows, csc, l) ==> ChainFits(c, l)
    ensures RowStorable(Side(rows, d)[i], l)
  {
    hide AllValid, GroupChains, ChainFits, RowStorable, InlineCount, Flat, Pack;
    var row := Side(rows, d)[i];
    InlineAll(row, l);
    if InlineCount(row, l) < |row| {
      var c := Chain(i, d, row[InlineCount(row, l)..]);
      GroupChainMember(rows, csc, l, c);
      RowWithinSide(rows, d, i);
      ChainFitsExact(nids, rows[i].node, row, i, d, l);
    } else {
      RowInline(row, l);
      StorableExact(row, l);
    }
  }

  lemma {:induction false} InlineAll(row: seq<Edge>, l: Layout)
    ensures row == [] ==> InlineCount(row, l) == |row|
  {
  }

  predicate OverflowSound(chainCount: nat, overflow: bytes, w: nat) {
    chainCount <= w && |overflow| <= 131072 + 65536 * w
  }

  lemma {:induction false} OverflowEncodes(nids: seq<u64>, rows: seq<Row>, csc: bool, l: Layout, w: nat)
    requires SideBuilt(nids, rows, l) && Sized(rows)
    requires !csc ==> forall i :: 0 <= i < |rows| ==> rows[i].incoming == []
    requires |Flat(Side(rows, Outgoing))| + |Flat(Side(rows, Incoming))| <= w
    ensures var chains := GroupChains(rows, csc, l);
      && (EncodeOverflowGroup(chains, l).Ok? <==> RowsStorable(rows, l))
      && (EncodeOverflowGroup(chains, l).Ok? ==>
            OverflowSound(|chains|, EncodeOverflowGroup(chains, l).value, w))
  {
    hide SideBuilt, GroupChains, ChainFits, RowsStorable, Flat, Side, ChunksBefore, GroupBytes;
    var chains := GroupChains(rows, csc, l);
    ChainsFitExact(nids, rows, csc, l);
    GroupChunks(rows, csc, l);
    if forall c :: c in chains ==> ChainFits(c, l) {
      forall k | 0 <= k < |chains| ensures 0 < |PartsOf(chains[k], l)| && ChainFits(chains[k], l) {
        assert chains[k] in chains;
        ChainFitsParts(chains[k], l);
      }
      ChainsCounted(chains, |chains|, l);
      OverflowLength(chains, l);
    }
  }

  lemma {:induction false} ChainFitsParts(c: Chain, l: Layout)
    requires ChainFits(c, l)
    ensures 0 < |PartsOf(c, l)|
  {
  }

  predicate FrameSound(f: GroupFrames, csc: bool, l: Layout, w: nat) {
    && GroupValid(WidthU32, f.nodes) && Slim(f.nodes, w)
    && ColumnsSound(f.outgoing, l, w)
    && (csc ==> f.incoming.Some? && ColumnsSound(f.incoming.value, l, w))
    && OverflowSound(f.chainCount, f.overflow, w)
  }

  /** What a group adds to the sizes of the file. */
  function Weight(rows: seq<Row>): nat {
    |rows| + |Flat(Side(rows, Outgoing))| + |Flat(Side(rows, Incoming))|
  }

  lemma {:induction false} SideEncodes(nids: seq<u64>, rows: seq<Row>, d: Direction, l: Layout)
    requires SideBuilt(nids, rows, l) && Sized(rows)
    ensures EncodeColumns(InlineRows(Side(rows, d), l), l).Ok?
    ensures ColumnsSound(EncodeColumns(InlineRows(Side(rows, d), l), l).value, l, Weight(rows))
  {
    hide AllValid, Flat, InlineRows, EncodeColumns, ColumnsSound;
    var side := Side(rows, d);
    forall i | 0 <= i < |side| ensures AllValid(nids, Ordinals(rows)[i], side[i], l) {
    }
    ColumnsEncode(side, nids, Ordinals(rows), l, Weight(rows));
  }

  lemma {:induction false} GroupEncodes(nids: seq<u64>, rows: seq<Row>, csc: bool, l: Layout)
    requires SideBuilt(nids, rows, l) && Sized(rows)
    requires !csc ==> forall i :: 0 <= i < |rows| ==> rows[i].incoming == []
    ensures EncodeGroup(rows, csc, l).Ok? <==> RowsStorable(rows, l)
    ensures EncodeGroup(rows, csc, l).Ok? ==> FrameSound(EncodeGroup(rows, csc, l).value, csc, l, Weight(rows))
  {
    hide SideBuilt, GroupChains, RowsStorable, Flat, InlineRows, EncodeColumns, ColumnsSound, EncodeOverflowGroup,
      OverflowSound, Ascending, PutWords;
    SideEncodes(nids, rows, Outgoing, l);
    SideEncodes(nids, rows, Incoming, l);
    ChainsAscend(rows, csc, l);
    OverflowEncodes(nids, rows, csc, l, Weight(rows));
  }

  // ----- Grouped sections -----

  function Whole(ws: seq<nat>): nat {
    if ws == [] then 0 else ws[0] + Whole(ws[1..])
  }

  predicate SlimGroups(groups: seq<Group>, ws: seq<nat>) {
    |groups| == |ws| && forall i :: 0 <= i < |groups| ==> Slim(groups[i], ws[i])
  }

  lemma {:induction false} PartOfWhole(ws: seq<nat>, i: nat)
    requires i < |ws|
    ensures ws[i] <= Whole(ws)
  {
    if i > 0 {
      PartOfWhole(ws[1..], i - 1);
    }
  }

  lemma {:induction false} ShortPayloads(groups: seq<Group>, ws: seq<nat>)
    requires SlimGroups(groups, ws) && Whole(ws) <= 12_884_901_888
    ensures forall i :: 0 <= i < |groups| ==> |groups[i].payload| < U64_LIMIT
  {
    forall i | 0 <= i < |groups| ensures |groups[i].payload| < U64_LIMIT {
      PartOfWhole(ws, i);
      assert Slim(groups[i], ws[i]);
    }
  }

  lemma {:induction false} FramesEnd(next: nat, groups: seq<Group>, ws: seq<nat>)
    requires SlimGroups(groups, ws) && forall i :: 0 <= i < |groups| ==> |groups[i].payload| < U64_LIMIT
    ensures GapStart(next, FramesBytes(groups), FrameOffsets(next, groups), |groups|) <=
      next + 196_624 * |groups| + 65_536 * Whole(ws)
    ensures Total(groups) <= |groups| + Whole(ws)
    decreases |groups|
  {
    hide FrameBytes;
    if groups != [] {
      var items, offsets := FramesBytes(groups), FrameOffsets(next, groups);
      var from := offsets[0] + |items[0]|;
      assert Slim(groups[0], ws[0]);
      FramesEnd(from, groups[1..], ws[1..]);
      assert FramesBytes(groups[1..]) == items[1..];
      assert offsets[1..] == FrameOffsets(from, groups[1..]);
      assert GapStart(next, items, offsets, |groups|) == GapStart(from, items[1..], offsets[1..], |groups| - 1);
    }
  }

  /** 2 to the power of 50. */
  const SECTION_BOUND: nat := 1_125_899_906_842_624

  predicate PlanSound(p: Plan, ws: seq<nat>) {
    SlimGroups(p.groups, ws) && forall i :: 0 <= i < |p.groups| ==> GroupValid(p.width, p.groups[i])
  }

  lemma {:induction false} PlanEncodes(p: Plan, ws: seq<nat>)
    requires PlanSound(p, ws) && |ws| <= 178_956_970 && Whole(ws) <= 12_884_901_888
    ensures EncodeGroupedSection(p.width, p.groups).Ok?
    ensures |EncodeGroupedSection(p.width, p.groups).value| <= SECTION_BOUND
    ensures Total(p.groups) < U64_LIMIT
  {
    hide GroupValid, FrameOffsets, Total, SlimGroups, Whole, FramesBytes, PutWords;
    SlimCount(p.groups, ws);
    ShortPayloads(p.groups, ws);
    FramesEnd(DirectoryEnd(|p.groups|), p.groups, ws);
    FramesPlaceable(DirectoryEnd(|p.groups|), p.groups);
  }

  lemma {:induction false} SlimCount(groups: seq<Group>, ws: seq<nat>)
    requires SlimGroups(groups, ws)
    ensures |groups| == |ws|
  {
  }

  lemma {:induction false} PlansEncode(plans: seq<Plan>, ws: seq<nat>)
    requires forall i :: 0 <= i < |plans| ==> PlanSound(plans[i], ws)
    requires |ws| <= 178_956_970 && Whole(ws) <= 12_884_901_888
    ensures EncodePlans(plans).Ok?
    ensures forall i :: 0 <= i < |plans| ==> |EncodePlans(plans).value[i].content| <= SECTION_BOUND
  {
    hide PlanSound, EncodeGroupedSection, Total, Whole;
    if plans != [] {
      PlanEncodes(plans[0], ws);
      PlansEncode(plans[1..], ws);
    }
  }

  predicate FramesSound(fs: seq<GroupFrames>, csc: bool, l: Layout, ws: seq<nat>) {
    |fs| == |ws| && forall i :: 0 <= i < |fs| ==> FrameSound(fs[i], csc, l, ws[i])
  }

  lemma {:induction false} DirectionSound(base: u32, cs: seq<Columns>, l: Layout, ws: seq<nat>)
    requires base <= 100 && |cs| == |ws| && forall i :: 0 <= i < |cs| ==> ColumnsSound(cs[i], l, ws[i])
    ensures forall i :: 0 <= i < |DirectionPlans(base, cs, l)| ==> PlanSound(DirectionPlans(base, cs, l)[i], ws)
  {
    hide GroupValid, Slim;
    var plans := DirectionPlans(base, cs, l);
    assert forall i :: 0 <= i < |cs| ==> ColumnsSound(cs[i], l, ws[i]);
    assert PlanSound(plans[0], ws) && PlanSound(plans[1], ws);
    assert PlanSound(plans[2], ws) && PlanSound(plans[3], ws);
    assert l.weighted ==> PlanSound(plans[4], ws);
  }

  lemma {:induction false} AllSound(a: seq<Plan>, b: seq<Plan>, ws: seq<nat>)
    requires forall i :: 0 <= i < |a| ==> PlanSound(a[i], ws)
    requires forall i :: 0 <= i < |b| ==> PlanSound(b[i], ws)
    ensures forall i :: 0 <= i < |a + b| ==> PlanSound((a + b)[i], ws)
  {
    hide PlanSound;
  }

  lemma {:induction false} PlansSound(fs: seq<GroupFrames>, csc: bool, l: Layout, ws: seq<nat>)
    requires FramesSound(fs, csc, l, ws) && ChainCountsFit(fs) && (csc ==> IncomingPresent(fs))
    ensures forall i :: 0 <= i < |PlansOf(fs, csc, l)| ==> PlanSound(PlansOf(fs, csc, l)[i], ws)
  {
    hide DirectionPlans, HasChains, ColumnsSound, PlanSound;
    var nodes, outgoing := [Plan(NODE_ORDS, WidthU32, NodeGroups(fs))], DirectionPlans(OUT_BASE, OutColumns(fs), l);
    var incoming := if csc then DirectionPlans(IN_BASE, InColumns(fs), l) else [];
    var chains := if HasChains(fs) then [Plan(OVERFLOW, WidthOverflowChain, OverflowGroups(fs))] else [];
    NodesSound(fs, csc, l, ws);
    assert forall i :: 0 <= i < |fs| ==> FrameSound(fs[i], csc, l, ws[i]);
    DirectionSound(OUT_BASE, OutColumns(fs), l, ws);
    if csc {
      DirectionSound(IN_BASE, InColumns(fs), l, ws);
    }
    AllSound(nodes, outgoing, ws);
    AllSound(nodes + outgoing, incoming, ws);
    AllSound(nodes + outgoing + incoming, chains, ws);
  }

  lemma {:induction false} NodesSound(fs: seq<GroupFrames>, csc: bool, l: Layout, ws: seq<nat>)
    requires FramesSound(fs, csc, l, ws) && ChainCountsFit(fs)
    ensures PlanSound(Plan(NODE_ORDS, WidthU32, NodeGroups(fs)), ws)
    ensures PlanSound(Plan(OVERFLOW, WidthOverflowChain, OverflowGroups(fs)), ws)
  {
    hide ColumnsSound, AllFinite;
    assert forall i :: 0 <= i < |fs| ==> FrameSound(fs[i], csc, l, ws[i]);
  }

  // ----- The namespace index -----

  lemma {:induction false} RowTotalSnoc(groups: seq<NamespaceGroup>, g: NamespaceGroup)
    ensures RowTotal(groups + [g]) == RowTotal(groups) + |g.rows|
    ensures NameTotal(groups + [g]) == NameTotal(groups) + |NameOf(g.namespace)|
  {
    hide NameOf;
    if groups == [] {
      assert groups + [g] == [g] && [g][1..] == [];
    } else {
      RowTotalSnoc(groups[1..], g);
      assert (groups + [g])[1..] == groups[1..] + [g];
    }
  }

  lemma {:induction false} RowTotalGrows(groups: seq<NamespaceGroup>, i: nat)
    requires i <= |groups|
    ensures RowTotal(groups[..i]) <= RowTotal(groups)
    ensures i < |groups| ==> RowTotal(groups[..i]) + |groups[i].rows| <= RowTotal(groups)
    decreases |groups| - i
  {
    if i == |groups| {
      assert groups[..i] == groups;
    } else {
      RowTotalGrows(groups, i + 1);
      assert groups[..i + 1] == groups[..i] + [groups[i]];
      RowTotalSnoc(groups[..i], groups[i]);
    }
  }

  lemma {:induction false} ListAccepted(groups: seq<NamespaceGroup>)
    ensures NamespaceList(groups).Ok? <==> forall i :: 0 <= i < |groups| ==> |groups[i].rows| < U32_LIMIT
  {
    if groups != [] {
      ListAccepted(groups[1..]);
      Split(groups, (g: NamespaceGroup) => |g.rows| < U32_LIMIT);
    }
  }

  /** Before record `i` come these rows and these name bytes. */
  lemma {:induction false} RecordStarts(groups: seq<NamespaceGroup>, i: nat)
    requires NamespaceList(groups).Ok? && i <= |groups|
    ensures var items := NamespaceList(groups).value;
      RowsBefore(items, i) == RowTotal(groups[..i]) && Start(Names(items), i) == NameTotal(groups[..i])
  {
    hide NamespaceList, Flat, NameOf;
    var items := NamespaceList(groups).value;
    var names := Names(items);
    StartTotal(names);
    if i > 0 {
      RecordStarts(groups, i - 1);
      FlatSlice(names, i - 1);
      assert groups[..i] == groups[..i - 1] + [groups[i - 1]];
      RowTotalSnoc(groups[..i - 1], groups[i - 1]);
    }
  }

  lemma {:induction false} ListAscends(groups: seq<NamespaceGroup>, items: seq<NamespaceRows>)
    requires |groups| == |items| && forall i :: 0 <= i < |groups| ==> groups[i].namespace == items[i].namespace
    requires Ascending(groups, GroupKey)
    ensures Ascending(items, (x: NamespaceRows) => NamespaceKey(x.namespace))
  {
    if |groups| > 1 {
      ListAscends(groups[1..], items[1..]);
    }
  }

  predicate RecordRoom(groups: seq<NamespaceGroup>, i: nat)
    requires i < |groups|
  {
    && NameTotal(groups[..i]) < U32_LIMIT
    && |NameOf(groups[i].namespace)| < U32_LIMIT
    && RowTotal(groups[..i]) + |groups[i].rows| < U32_LIMIT
  }

  lemma {:induction false} RecordsFit(groups: seq<NamespaceGroup>, items: seq<NamespaceRows>, i: nat)
    requires NamespaceList(groups) == Ok(items) && i < |groups|
    ensures RecordFits(items, i) <==> RecordRoom(groups, i)
  {
    hide NamespaceList, Start, RowsBefore;
    RecordStarts(groups, i);
  }

  lemma {:induction false} NamesShort(groups: seq<NamespaceGroup>, items: seq<NamespaceRows>)
    requires NamespaceList(groups) == Ok(items) && forall i :: 0 <= i < |groups| ==> RecordFits(items, i)
    ensures |Flat(Names(items))| < U64_LIMIT
  {
    hide NamespaceList, Flat, Start;
    StartTotal(Names(items));
    if items != [] {
      var n := |items| - 1;
      FlatSlice(Names(items), n);
      assert RecordFits(items, n);
    }
  }

  predicate RecordsRoom(groups: seq<NamespaceGroup>) {
    forall i :: 0 <= i < |groups| ==> RecordRoom(groups, i)
  }

  lemma {:induction false} RoomExact(groups: seq<NamespaceGroup>)
    ensures NamespacesFit(groups) <==>
      && |groups| * 24 < U32_LIMIT
      && RecordsRoom(groups)
      && forall i :: 0 <= i < |groups| ==> groups[i].namespace != Tenant([])
  {
    hide NameOf, RowTotal, NameTotal;
    if RecordsRoom(groups) {
      LastRow(groups);
    }
    if RowTotal(groups) < U32_LIMIT {
      forall i | 0 <= i < |groups| ensures RowTotal(groups[..i]) + |groups[i].rows| < U32_LIMIT {
        RowTotalGrows(groups, i);
      }
    }
    if NamespacesFit(groups) {
      assert RecordsRoom(groups);
    } else if |groups| * 24 < U32_LIMIT && RecordsRoom(groups)
      && forall i :: 0 <= i < |groups| ==> groups[i].namespace != Tenant([]) {
      forall i | 0 <= i < |groups| ensures NameTotal(groups[..i]) < U32_LIMIT
        && |NameOf(groups[i].namespace)| < U32_LIMIT {
        assert RecordRoom(groups, i);
      }
    }
  }

  lemma {:induction false} ItemsExact(groups: seq<NamespaceGroup>, items: seq<NamespaceRows>)
    requires Ascending(groups, GroupKey) && NamespaceList(groups) == Ok(items)
    ensures InOrder(items) && FieldsFit(items) <==> NamespacesFit(groups)
  {
    hide NamespaceList, RecordFits, Ascending, NameOf, Flat, NamespaceKey, RecordRoom, NamespacesFit;
    ListAscends(groups, items);
    RoomExact(groups);
    forall i | 0 <= i < |groups| ensures RecordFits(items, i) <==> RecordRoom(groups, i) {
      RecordsFit(groups, items, i);
    }
    if forall i :: 0 <= i < |items| ==> RecordFits(items, i) {
      NamesShort(groups, items);
    }
    assert FieldsFit(items) <==> |groups| * 24 < U32_LIMIT && RecordsRoom(groups) by {
      if FieldsFit(items) {
        forall i | 0 <= i < |groups| ensures RecordRoom(groups, i) {
          assert RecordFits(items, i);
        }
      }
      if RecordsRoom(groups) {
        forall i | 0 <= i < |items| ensures RecordFits(items, i) {
          assert RecordRoom(groups, i);
        }
      }
    }
  }

  lemma {:induction false} IndexExact(groups: seq<NamespaceGroup>)
    requires Ascending(groups, GroupKey)
    ensures IndexSection(groups).Ok? <==> NamespacesFit(groups)
    ensures IndexSection(groups).Ok? ==>
      IndexSection(groups).value.id == NAMESPACE_INDEX && |IndexSection(groups).value.content| <= SECTION_BOUND
  {
    hide NamespaceList, RecordFits, Ascending, IndexBytes, NameOf, Flat, InOrder, RecordRoom;
    ListAccepted(groups);
    RoomExact(groups);
    if RecordsRoom(groups) {
      forall i | 0 <= i < |groups| ensures |groups[i].rows| < U32_LIMIT {
        RoomRows(groups, i);
      }
    }
    if NamespaceList(groups).Ok? {
      var items := NamespaceList(groups).value;
      ItemsExact(groups, items);
      if FieldsFit(items) {
        IndexShort(groups, items);
      }
    }
  }

  lemma {:induction false} RoomRows(groups: seq<NamespaceGroup>, i: nat)
    requires i < |groups| && RecordRoom(groups, i)
    ensures |groups[i].rows| < U32_LIMIT
  {
  }

  lemma {:induction false} LastRow(groups: seq<NamespaceGroup>)
    requires RecordsRoom(groups)
    ensures RowTotal(groups) < U32_LIMIT
  {
    hide NameOf;
    if groups != [] {
      var n := |groups| - 1;
      assert RecordRoom(groups, n);
      assert groups == groups[..n] + [groups[n]];
      RowTotalSnoc(groups[..n], groups[n]);
    }
  }

  lemma {:induction false} IndexShort(groups: seq<NamespaceGroup>, items: seq<NamespaceRows>)
    requires NamespaceList(groups) == Ok(items) && FieldsFit(items)
    ensures |IndexBytes(items)| <= SECTION_BOUND
  {
    hide NamespaceList, Flat, Start, Namespaces.RecordOf, Record;
    FlatWide(Namespaces.Records(items), RECORD_BYTES);
    StartTotal(Names(items));
    if items != [] {
      var n := |items| - 1;
      FlatSlice(Names(items), n);
      assert RecordFits(items, n);
    }
  }

  // ----- The artifact -----

  /** Ids ascend between two bounds. */
  predicate IdsWithin(ids: seq<u32>, lo: nat, hi: nat) {
    && (forall i :: 0 <= i < |ids| ==> lo <= ids[i] < hi)
    && forall i, j :: 0 <= i < j < |ids| ==> ids[i] < ids[j]
  }

  lemma {:induction false} IdsJoin(a: seq<u32>, b: seq<u32>, lo: nat, mid: nat, hi: nat)
    requires IdsWithin(a, lo, mid) && IdsWithin(b, mid, hi) && lo <= mid <= hi
    ensures IdsWithin(a + b, lo, hi)
  {
    var all := a + b;
    forall i, j | 0 <= i < j < |all| ensures all[i] < all[j] {
      assert all[i] == if i < |a| then a[i] else b[i - |a|];
      assert all[j] == if j < |a| then a[j] else b[j - |a|];
    }
  }

  function PlanIdList(plans: seq<Plan>): (r: seq<u32>)
    ensures |r| == |plans| && forall i :: 0 <= i < |r| ==> r[i] == plans[i].id
  {
    seq(|plans|, i requires 0 <= i < |plans| => plans[i].id)
  }

  lemma {:induction false} DirectionIdsAscend(base: u32, cs: seq<Columns>, l: Layout)
    requires base <= 100
    ensures IdsWithin(PlanIdList(DirectionPlans(base, cs, l)), base, base + 5)
  {
    var plans := DirectionPlans(base, cs, l);
    assert plans[0].id == base && plans[1].id == base + 1 && plans[2].id == base + 2 && plans[3].id == base + 3;
    assert l.weighted ==> plans[4].id == base + 4;
  }

  lemma {:induction false} PlansJoin(a: seq<Plan>, b: seq<Plan>, lo: nat, mid: nat, hi: nat)
    requires IdsWithin(PlanIdList(a), lo, mid) && IdsWithin(PlanIdList(b), mid, hi) && lo <= mid <= hi
    ensures IdsWithin(PlanIdList(a + b), lo, hi)
  {
    hide IdsWithin;
    IdsJoin(PlanIdList(a), PlanIdList(b), lo, mid, hi);
    assert PlanIdList(a + b) == PlanIdList(a) + PlanIdList(b);
  }

  lemma {:induction false} PlanIdsAscend(fs: seq<GroupFrames>, csc: bool, l: Layout)
    requires ChainCountsFit(fs) && (csc ==> IncomingPresent(fs))
    ensures IdsWithin(PlanIdList(PlansOf(fs, csc, l)), 3, 15)
  {
    hide DirectionPlans, HasChains, IdsWithin, PlanIdList;
    var nodes, outgoing := [Plan(NODE_ORDS, WidthU32, NodeGroups(fs))], DirectionPlans(OUT_BASE, OutColumns(fs), l);
    var incoming := if csc then DirectionPlans(IN_BASE, InColumns(fs), l) else [];
    var chains := if HasChains(fs) then [Plan(OVERFLOW, WidthOverflowChain, OverflowGroups(fs))] else [];
    DirectionIdsAscend(OUT_BASE, OutColumns(fs), l);
    FewIds(PlanIdList(nodes), 3, 4);
    FewIds(PlanIdList(chains), 14, 15);
    if csc {
      DirectionIdsAscend(IN_BASE, InColumns(fs), l);
    } else {
      FewIds(PlanIdList(incoming), 9, 14);
    }
    PlansJoin(nodes, outgoing, 3, 4, 9);
    PlansJoin(nodes + outgoing, incoming, 3, 9, 14);
    PlansJoin(nodes + outgoing + incoming, chains, 3, 14, 15);
  }

  lemma {:induction false} FewIds(ids: seq<u32>, lo: nat, hi: nat)
    requires |ids| <= 1 && forall i :: 0 <= i < |ids| ==> lo <= ids[i] < hi
    ensures IdsWithin(ids, lo, hi)
  {
  }

  lemma {:induction false} FlagsMasked(csc: bool, overflow: bool, l: Layout)
    ensures Artifact.MaskedBy(Flags(csc, overflow, l), 15)
  {
    var f := Flags(csc, overflow, l);
    assert Artifact.MaskedBy(f / 8 / 2, 0);
    assert Artifact.MaskedBy(f / 4 / 2, 1);
    assert Artifact.MaskedBy(f / 2 / 2, 3);
    assert Artifact.MaskedBy(f / 2, 7);
  }

  lemma {:induction false} ChunkAlignment()
    ensures Artifact.PowerOfTwoAlignment(65536)
  {
    assert Artifact.PowerOfTwo(2) && Artifact.PowerOfTwo(4) && Artifact.PowerOfTwo(8) && Artifact.PowerOfTwo(16);
    assert Artifact.PowerOfTwo(32) && Artifact.PowerOfTwo(64) && Artifact.PowerOfTwo(128) && Artifact.PowerOfTwo(256);
    assert Artifact.PowerOfTwo(512) && Artifact.PowerOfTwo(1024) && Artifact.PowerOfTwo(2048);
    assert Artifact.PowerOfTwo(4096) && Artifact.PowerOfTwo(8192) && Artifact.PowerOfTwo(16384);
    assert Artifact.PowerOfTwo(32768);
  }

  lemma {:induction false} KnownIds(id: u32)
    requires 1 <= id < 15
    ensures Artifact.KnownSection(SPEC, id)
  {
    assert SPEC.required == [2, 3, 4, 5, 6, 7] && SPEC.optional == [1, 8, 9, 10, 11, 12, 13, 14];
  }

  /** Sections of the file in the order the writer lists them. */
  predicate Listed(
    sections: seq<Artifact.Section>, front: seq<Artifact.Section>, grouped: seq<Artifact.Section>, plans: seq<Plan>) {
    && sections == front + grouped
    && 1 <= |front| <= 2 && front[|front| - 1].id == 2 && (|front| == 2 ==> front[0].id == 1)
    && |grouped| == |plans| && forall i :: 0 <= i < |plans| ==> grouped[i].id == plans[i].id
  }

  lemma {:induction false} ListedIds(
    sections: seq<Artifact.Section>, front: seq<Artifact.Section>, grouped: seq<Artifact.Section>, plans: seq<Plan>)
    requires Listed(sections, front, grouped, plans) && IdsWithin(PlanIdList(plans), 3, 15)
    ensures Artifact.StrictIds(sections)
    ensures forall i :: 0 <= i < |sections| ==> Artifact.KnownSection(SPEC, sections[i].id)
  {
    var ids := PlanIdList(plans);
    forall i | 0 <= i < |sections| ensures 1 <= sections[i].id < 15 {
      if i >= |front| {
        assert sections[i].id == ids[i - |front|];
      }
    }
    forall i | 0 <= i < |sections| ensures Artifact.KnownSection(SPEC, sections[i].id) {
      KnownIds(sections[i].id);
    }
    forall i, j | 0 <= i < j < |sections| ensures sections[i].id < sections[j].id {
      if i >= |front| {
        assert sections[i].id == ids[i - |front|] && sections[j].id == ids[j - |front|];
      } else if j >= |front| {
        assert sections[j].id == ids[j - |front|] >= 3;
      }
    }
  }

  lemma {:induction false} ListedHas(
    sections: seq<Artifact.Section>, front: seq<Artifact.Section>, grouped: seq<Artifact.Section>, plans: seq<Plan>)
    requires Listed(sections, front, grouped, plans)
    ensures Artifact.HasId(sections, 2)
    ensures forall i :: 0 <= i < |plans| ==> Artifact.HasId(sections, plans[i].id)
  {
    assert sections[|front| - 1].id == 2;
    forall i | 0 <= i < |plans| ensures Artifact.HasId(sections, plans[i].id) {
      assert sections[|front| + i].id == plans[i].id;
    }
  }

  lemma {:induction false} ListedAligned(
    sections: seq<Artifact.Section>, front: seq<Artifact.Section>, grouped: seq<Artifact.Section>, plans: seq<Plan>)
    requires Listed(sections, front, grouped, plans) && IdsWithin(PlanIdList(plans), 3, 15)
    ensures Artifact.AlignmentsValid(SPEC, sections, ChunkAligned(plans))
  {
    hide Artifact.PowerOfTwoAlignment, Artifact.KnownSection, Artifact.HasId;
    ChunkAlignment();
    ListedHas(sections, front, grouped, plans);
    var ids, alignments := PlanIdList(plans), ChunkAligned(plans);
    forall i | 0 <= i < |alignments| ensures Artifact.KnownSection(SPEC, alignments[i].0) {
      assert alignments[i].0 == ids[i];
      KnownIds(ids[i]);
    }
    forall i, j | 0 <= i < j < |alignments| ensures alignments[i].0 != alignments[j].0 {
      assert alignments[i].0 == ids[i] && alignments[j].0 == ids[j];
    }
  }

  // ----- The file -----

  lemma {:induction false} SectionsLaid(
    sections: seq<Artifact.Section>, front: seq<Artifact.Section>, grouped: seq<Artifact.Section>, plans: seq<Plan>,
    crc: Artifact.Crc, csc: bool, overflow: bool, l: Layout)
    requires Listed(sections, front, grouped, plans) && IdsWithin(PlanIdList(plans), 3, 15)
    requires forall id :: 3 <= id <= 7 ==> PlanId(plans, id)
    requires forall i :: 0 <= i < |sections| ==> |sections[i].content| <= SECTION_BOUND
    ensures Artifact.EncodeWithAlignments(SPEC, crc, Flags(csc, overflow, l), sections, ChunkAligned(plans)).Ok?
  {
    hide Artifact.MaskedBy, Artifact.AlignmentsValid, Artifact.KnownSection, Artifact.HasId, Artifact.StrictIds,
      Artifact.SectionOffsets, Artifact.FileLen, Artifact.HeaderBytes, Artifact.SortById, Flags;
    FlagsMasked(csc, overflow, l);
    ListedIds(sections, front, grouped, plans);
    ListedHas(sections, front, grouped, plans);
    ListedAligned(sections, front, grouped, plans);
    Artifact.AlreadySorted(sections);
    assert SPEC.required == [2, 3, 4, 5, 6, 7] && SPEC.allowedFlags == 15;
    forall i | 0 <= i < |SPEC.required| ensures Artifact.HasId(sections, SPEC.required[i]) {
      if i > 0 {
        assert PlanId(plans, SPEC.required[i]);
      }
    }
    FewPlans(PlanIdList(plans));
    AlignedPowers(sections, plans);
    Artifact.FileLenBound(Artifact.HeaderLen(|sections|), sections, ChunkAligned(plans), SECTION_BOUND);
  }

  lemma {:induction false} AlignedPowers(sections: seq<Artifact.Section>, plans: seq<Plan>)
    requires Artifact.AlignmentsValid(SPEC, sections, ChunkAligned(plans))
    ensures Artifact.AllPowersOfTwo(ChunkAligned(plans))
  {
  }

  lemma {:induction false} FewPlans(ids: seq<u32>)
    requires IdsWithin(ids, 3, 15)
    ensures |ids| <= 12
  {
    if |ids| > 12 {
      IdsClimb(ids, 12);
    }
  }

  lemma {:induction false} IdsClimb(ids: seq<u32>, i: nat)
    requires IdsWithin(ids, 3, 15) && i < |ids|
    ensures ids[i] >= 3 + i
  {
    if i > 0 {
      IdsClimb(ids, i - 1);
      assert ids[i - 1] < ids[i];
    }
  }

  function WeightList(groups: seq<NamespaceGroup>): (r: seq<nat>)
    ensures |r| == |groups| && forall i :: 0 <= i < |r| ==> r[i] == Weight(groups[i].rows)
  {
    seq(|groups|, i requires 0 <= i < |groups| => Weight(groups[i].rows))
  }

  lemma {:induction false} WholeWeight(groups: seq<NamespaceGroup>)
    ensures Whole(WeightList(groups)) ==
      RowTotal(groups) + |EdgesOf(groups, Outgoing)| + |EdgesOf(groups, Incoming)|
  {
    hide Side;
    if groups != [] {
      WholeWeight(groups[1..]);
      assert WeightList(groups)[1..] == WeightList(groups[1..]);
      assert GroupEdges(groups, Outgoing)[1..] == GroupEdges(groups[1..], Outgoing);
      assert GroupEdges(groups, Incoming)[1..] == GroupEdges(groups[1..], Incoming);
    }
  }

  lemma {:induction false} GroupSized(groups: seq<NamespaceGroup>, i: nat)
    requires i < |groups| && RowTotal(groups) < U32_LIMIT
    requires |EdgesOf(groups, Outgoing)| < U32_LIMIT && |EdgesOf(groups, Incoming)| < U32_LIMIT
    ensures Sized(groups[i].rows)
  {
    hide Flat, Start;
    RowTotalGrows(groups, i);
    FlatSlice(GroupEdges(groups, Outgoing), i);
    FlatSlice(GroupEdges(groups, Incoming), i);
  }

  lemma {:induction false} BuiltSides(nids: seq<u64>, rows: seq<Row>, csc: bool, l: Layout)
    requires RowsBuilt(nids, rows, csc, l)
    ensures SideBuilt(nids, rows, l)
    ensures !csc ==> forall i :: 0 <= i < |rows| ==> rows[i].incoming == []
  {
    hide EdgeValid, RowSorted, OrdinalsValid;
    forall i | 0 <= i < |rows|
      ensures AllValid(nids, rows[i].node, rows[i].outgoing, l) && AllValid(nids, rows[i].node, rows[i].incoming, l)
    {
      assert RowValid(nids, rows[i].node, rows[i].outgoing, l);
    }
  }

  lemma {:induction false} GroupsEncodeExact(groups: seq<NamespaceGroup>, csc: bool, l: Layout)
    ensures EncodeGroups(groups, csc, l).Ok? <==>
      forall i :: 0 <= i < |groups| ==> EncodeGroup(groups[i].rows, csc, l).Ok?
  {
    hide EncodeGroup;
    if groups != [] {
      GroupsEncodeExact(groups[1..], csc, l);
      Split(groups, (g: NamespaceGroup) => EncodeGroup(g.rows, csc, l).Ok?);
    }
  }

  /** Every group encodes, with sound frames, exactly when all rows are storable. */
  lemma {:induction false} FramesExact(nids: seq<u64>, a: Adjacency)
    requires Built(nids, a) && RowTotal(a.groups) < U32_LIMIT
    ensures EncodeGroups(a.groups, a.csc, a.layout).Ok? <==>
      forall i :: 0 <= i < |a.groups| ==> RowsStorable(a.groups[i].rows, a.layout)
    ensures EncodeGroups(a.groups, a.csc, a.layout).Ok? ==>
      FramesSound(EncodeGroups(a.groups, a.csc, a.layout).value, a.csc, a.layout, WeightList(a.groups))
  {
    hide EncodeGroups, EncodeGroup, RowsStorable, FrameSound, RowsBuilt, EdgesOf, IdsDistinct, WeightsTotal,
      MirrorsAgree, AllEdges, TypeList, Ascending, Weight;
    GroupsEncodeExact(a.groups, a.csc, a.layout);
    forall i | 0 <= i < |a.groups|
      ensures EncodeGroup(a.groups[i].rows, a.csc, a.layout).Ok? <==> RowsStorable(a.groups[i].rows, a.layout)
      ensures EncodeGroup(a.groups[i].rows, a.csc, a.layout).Ok? ==>
        FrameSound(EncodeGroup(a.groups[i].rows, a.csc, a.layout).value, a.csc, a.layout, Weight(a.groups[i].rows))
    {
      GroupSized(a.groups, i);
      BuiltSides(nids, a.groups[i].rows, a.csc, a.layout);
      GroupEncodes(nids, a.groups[i].rows, a.csc, a.layout);
    }
  }

  lemma {:induction false} FramesFit(fs: seq<GroupFrames>, csc: bool, l: Layout, ws: seq<nat>)
    requires FramesSound(fs, csc, l, ws) && Whole(ws) <= 12_884_901_888
    ensures ChainCountsFit(fs) && (csc ==> IncomingPresent(fs))
  {
    hide ColumnsSound, GroupValid, Slim;
    forall i | 0 <= i < |fs| ensures fs[i].chainCount < U64_LIMIT && (csc ==> fs[i].incoming.Some?) {
      assert FrameSound(fs[i], csc, l, ws[i]);
      PartOfWhole(ws, i);
    }
  }

  lemma {:induction false} SectionsWritten(a: Adjacency, fs: seq<GroupFrames>, crc: Artifact.Crc)
    requires a.layout.Valid() && Ascending(a.groups, GroupKey) && NamespacesFit(a.groups)
    requires |EdgesOf(a.groups, Outgoing)| < U32_LIMIT && |EdgesOf(a.groups, Incoming)| < U32_LIMIT
    requires FramesSound(fs, a.csc, a.layout, WeightList(a.groups))
    requires ChainCountsFit(fs) && (a.csc ==> IncomingPresent(fs))
    ensures WriteSections(a, fs, PlansOf(fs, a.csc, a.layout), crc).Ok?
  {
    hide FramesSound, PlansOf, EncodePlans, IndexSection, HasChains, PlanSound, EdgesOf, Ascending, WeightList, Whole,
      IdsWithin, PlanIdList, ChunkAligned, Artifact.EncodeWithAlignments, RowTotal, NameTotal, NameOf, PutWords, PlanId,
        Planned;
    var plans, ws := PlansOf(fs, a.csc, a.layout), WeightList(a.groups);
    IndexExact(a.groups);
    WholeWeight(a.groups);
    PlansSound(fs, a.csc, a.layout, ws);
    PlansEncode(plans, ws);
    PlanIdsAscend(fs, a.csc, a.layout);
    forall id | 3 <= id <= 7 ensures PlanId(plans, id) {
      PlanIds(fs, a.csc, a.layout, id);
    }
    var index, grouped := IndexSection(a.groups).value, EncodePlans(plans).value;
    var front := RemapSections(a.layout) + [index];
    PlannedIds(plans, grouped);
    SectionsLaid(front + grouped, front, grouped, plans, crc, a.csc, HasChains(fs), a.layout);
  }

  lemma {:induction false} PlannedIds(plans: seq<Plan>, grouped: seq<Artifact.Section>)
    requires |grouped| == |plans| && forall i :: 0 <= i < |plans| ==> Planned(plans[i], grouped[i])
    ensures forall i :: 0 <= i < |plans| ==> grouped[i].id == plans[i].id
  {
    hide EncodeGroupedSection, Total;
    forall i | 0 <= i < |plans| ensures grouped[i].id == plans[i].id {
      assert Planned(plans[i], grouped[i]);
    }
  }

  /** A built adjacency is written exactly when it fits. */
  lemma {:induction false} WriteAccepts(nids: seq<u64>, a: Adjacency, crc: Artifact.Crc)
    requires Built(nids, a)
    ensures Write(a, crc).Ok? <==> FileFits(a)
  {
    hide EncodeGroups, RowsStorable, FramesSound, RowsBuilt, EdgesOf, IdsDistinct, WeightsTotal, MirrorsAgree, AllEdges,
      TypeList, Ascending, WeightList, Whole, PlansOf, EncodePlans, IndexSection, RowTotal, NameTotal, HasChains,
        Artifact.EncodeWithAlignments;
    IndexExact(a.groups);
    if NamespacesFit(a.groups) {
      FramesExact(nids, a);
      if EncodeGroups(a.groups, a.csc, a.layout).Ok? {
        var fs := EncodeGroups(a.groups, a.csc, a.layout).value;
        WholeWeight(a.groups);
        FramesFit(fs, a.csc, a.layout, WeightList(a.groups));
        SectionsWritten(a, fs, crc);
      }
    }
  }

  /** An input the builder accepts is built; what it builds is stored exactly when it fits, and a stored file gives
      it back. */
  lemma {:induction false} AdjacencyStored(
    nids: seq<u64>, groups: seq<GroupInput>, csc: bool, useRemap: bool, crc: Artifact.Crc, utf8: bytes -> bool)
    requires BuildAcceptance.Acceptable(nids, groups, csc, useRemap)
    requires forall g :: 0 <= g < |groups| ==> groups[g].namespace.Tenant? ==> utf8(groups[g].namespace.name)
    ensures Build(nids, groups, csc, useRemap).Ok?
    ensures var a := Build(nids, groups, csc, useRemap).value;
      && (Write(a, crc).Ok? <==> FileFits(a))
      && (FileFits(a) ==> OpenFile(Write(a, crc).value, nids, crc, utf8) == Ok(a))
  {
    hide Build, Write, OpenFile, Built, FileFits, BuildAcceptance.Acceptable;
    BuildAcceptance.BuildAccepts(nids, groups, csc, useRemap);
    var a := Build(nids, groups, csc, useRemap).value;
    BuildEstablishes(nids, groups, csc, useRemap, a);
    WriteAccepts(nids, a, crc);
    if FileFits(a) {
      AdjacencyRoundTrip(nids, groups, csc, useRemap, crc, utf8, a, Write(a, crc).value);
    }
  }
}
