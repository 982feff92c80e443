/** One namespace group of an adjacency file (`graph_edge.rs`): its rows split
    between the inline columns and the overflow chains, and put together again. */
module EdgeGroups {
  import opened Wrappers
  import opened Bytes
  import opened Ordering
  import opened GroupedSections
  import opened RowChunking
  import opened EdgeTuples
  import opened EdgeColumns
  import opened EdgeOverflow

  datatype Row = Row(node: u32, outgoing: seq<Edge>, incoming: seq<Edge>)

  /** What is stored for one group, section by section. */
  datatype GroupFrames = GroupFrames(nodes: Group, outgoing: Columns, incoming: Option<Columns>, chainCount: nat,
    overflow: bytes)

  function Ordinals(rows: seq<Row>): (r: seq<u32>)
    ensures |r| == |rows| && forall i :: 0 <= i < |r| ==> r[i] == rows[i].node
  {
    seq(|rows|, i requires 0 <= i < |rows| => rows[i].node)
  }

  function Side(rows: seq<Row>, d: Direction): (r: seq<seq<Edge>>)
    ensures |r| == |rows| && forall i :: 0 <= i < |r| ==> r[i] == if d.Outgoing? then rows[i].outgoing
      else rows[i].incoming
  {
    seq(|rows|, i requires 0 <= i < |rows| => if d.Outgoing? then rows[i].outgoing else rows[i].incoming)
  }

  // ----- The writer -----

  function InlineRows(rows: seq<seq<Edge>>, l: Layout): (r: seq<seq<Edge>>)
    ensures |r| == |rows| && forall i :: 0 <= i < |r| ==> r[i] == WrittenInline(rows[i], TupleLen(l))
  {
    seq(|rows|, i requires 0 <= i < |rows| => WrittenInline(rows[i], TupleLen(l)))
  }

  function InlineCount(row: seq<Edge>, l: Layout): (k: nat)
    ensures k <= |row|
  {
    PrefixCount(row, TupleLen(l), 0)
  }

  /** The chains of one direction from row `i` on: the rows that did not fit inline. */
  function OverflowChains(rows: seq<seq<Edge>>, d: Direction, l: Layout, i: nat): (r: seq<Chain>)
    requires i <= |rows| < U32_LIMIT
    ensures |r| <= |rows| - i
    decreases |rows| - i
  {
    if i == |rows| then []
    else
      var k := InlineCount(rows[i], l);
      var rest := OverflowChains(rows, d, l, i + 1);
      if k == |rows[i]| then rest else [Chain(i, d, rows[i][k..])] + rest
  }

  function GroupChains(rows: seq<Row>, csc: bool, l: Layout): (r: seq<Chain>)
    requires |rows| < U32_LIMIT
    ensures |r| <= |rows| * (if csc then 2 else 1)
  {
    Sort(OverflowChains(Side(rows, Outgoing), Outgoing, l, 0)
      + (if csc then OverflowChains(Side(rows, Incoming), Incoming, l, 0) else []), ChainKey)
  }

  function EncodeGroup(rows: seq<Row>, csc: bool, l: Layout): Result<GroupFrames> {
    if |rows| >= U32_LIMIT then Err
    else
      var outgoing :- EncodeColumns(InlineRows(Side(rows, Outgoing), l), l);
      var incoming :- EncodeIncoming(rows, csc, l);
      var chains := GroupChains(rows, csc, l);
      :- Need(Ascending(chains, ChainKey));
      var overflow :- EncodeOverflowGroup(chains, l);
      Ok(GroupFrames(Group(|rows|, PutWords(Ordinals(rows), 4)), outgoing, incoming, |chains|, overflow))
  }

  function EncodeIncoming(rows: seq<Row>, csc: bool, l: Layout): Result<Option<Columns>> {
    if csc then
      var columns :- EncodeColumns(InlineRows(Side(rows, Incoming), l), l);
      Ok(Some(columns))
    else Ok(None)
  }

  // ----- The loader -----

  /** The suffix a chain adds to a row, if there is one. */
  function ChainFor(chains: seq<Chain>, row: nat, d: Direction): Option<seq<Edge>> {
    if chains == [] then None
    else if chains[0].row == row && chains[0].direction == d then Some(chains[0].edges)
    else ChainFor(chains[1..], row, d)
  }

  function ExpandRow(inline: seq<Edge>, suffix: Option<seq<Edge>>): seq<Edge> {
    if suffix.Some? then inline + suffix.value else inline
  }

  function Expand(inline: seq<seq<Edge>>, chains: seq<Chain>, d: Direction): (r: seq<seq<Edge>>)
    ensures |r| == |inline|
    ensures forall i :: 0 <= i < |r| ==> r[i] == ExpandRow(inline[i], ChainFor(chains, i, d))
  {
    seq(|inline|, i requires 0 <= i < |inline| => ExpandRow(inline[i], ChainFor(chains, i, d)))
  }

  /** The loader's loop: each chain extends its own row in place. */
  method ExtendRows(inline: seq<seq<Edge>>, chains: seq<Chain>, d: Direction) returns (rows: seq<seq<Edge>>)
    requires Ascending(chains, ChainKey)
    requires forall k :: 0 <= k < |chains| ==> chains[k].row < |inline|
    ensures rows == Expand(inline, chains, d)
  {
    rows := inline;
    for n := 0 to |chains|
      invariant |rows| == |inline|
      invariant forall i :: 0 <= i < |rows| ==> rows[i] == ExpandRow(inline[i], ChainFor(chains[..n], i, d))
    {
      var c := chains[n];
      forall i | 0 <= i < |rows|
        ensures ChainFor(chains[..n + 1], i, d) ==
          if c.row == i && c.direction == d then Some(c.edges) else ChainFor(chains[..n], i, d)
        ensures c.row == i && c.direction == d ==> ChainFor(chains[..n], i, d).None?
      {
        assert chains[..n + 1] == chains[..n] + [c];
        ChainForSnoc(chains[..n], c, i, d);
        if c.row == i && c.direction == d && ChainFor(chains[..n], i, d).Some? {
          var m := ChainForIndex(chains[..n], i, d);
          AscendingPairs(chains, ChainKey, m, n);
          LessTotal(ChainKey(chains[m]), ChainKey(c));
          assert false;
        }
      }
      if c.direction == d {
        rows := rows[c.row := rows[c.row] + c.edges];
      }
    }
    assert chains[..|chains|] == chains;
  }

  lemma {:induction false} ChainForSnoc(chains: seq<Chain>, c: Chain, row: nat, d: Direction)
    ensures ChainFor(chains + [c], row, d) ==
      if ChainFor(chains, row, d).Some? then ChainFor(chains, row, d)
      else if c.row == row && c.direction == d then Some(c.edges) else None
  {
    if chains == [] {
      assert chains + [c] == [c];
    } else {
      assert (chains + [c])[1..] == chains[1..] + [c];
      ChainForSnoc(chains[1..], c, row, d);
    }
  }

  lemma {:induction false} ChainForIndex(chains: seq<Chain>, row: nat, d: Direction) returns (m: nat)
    requires ChainFor(chains, row, d).Some?
    ensures m < |chains| && chains[m].row == row && chains[m].direction == d
    ensures ChainFor(chains, row, d) == Some(chains[m].edges)
  {
    if chains[0].row == row && chains[0].direction == d {
      m := 0;
    } else {
      var k := ChainForIndex(chains[1..], row, d);
      m := k + 1;
    }
  }

  /** The split of a loaded row must be the writer's, and the row sorted as a whole. */
  predicate RowDivided(inline: seq<Edge>, suffix: Option<seq<Edge>>, l: Layout) {
    && RowSorted(ExpandRow(inline, suffix))
    && Sum(inline, TupleLen(l)) <= CHUNK_PAYLOAD_BYTES
    && (suffix.Some? ==>
          suffix.value != [] && Sum(inline, TupleLen(l)) + TupleLen(l)(suffix.value[0]) > CHUNK_PAYLOAD_BYTES)
  }

  predicate RowsDivided(inline: seq<seq<Edge>>, chains: seq<Chain>, d: Direction, l: Layout) {
    forall i :: 0 <= i < |inline| ==> RowDivided(inline[i], ChainFor(chains, i, d), l)
  }

  function Zip(ordinals: seq<u32>, outgoing: seq<seq<Edge>>, incoming: seq<seq<Edge>>): (r: seq<Row>)
    requires |outgoing| == |incoming| == |ordinals|
    ensures |r| == |ordinals|
    ensures forall i :: 0 <= i < |r| ==> r[i] == Row(ordinals[i], outgoing[i], incoming[i])
  {
    seq(|ordinals|, i requires 0 <= i < |ordinals| => Row(ordinals[i], outgoing[i], incoming[i]))
  }

  predicate OrdinalsValid(nids: seq<u64>, ordinals: seq<u32>) {
    && Ascending(ordinals, (n: u32) => [n])
    && forall i :: 0 <= i < |ordinals| ==> LocalNid(nids, ordinals[i]).Ok?
  }

  function ReadOrdinals(nids: seq<u64>, nodes: Group, rowCount: nat): (r: Result<seq<u32>>)
    ensures r.Ok? ==> |r.value| == rowCount
  {
    PowValues();
    var ordinals: seq<u32> := Words(nodes.payload, 4);
    :- Need(|ordinals| == rowCount == nodes.elemCount && OrdinalsValid(nids, ordinals));
    Ok(ordinals)
  }

  function DecodeIncoming(
    nids: seq<u64>, ordinals: seq<u32>, incoming: Option<Columns>, l: Layout): (r: Result<seq<seq<Edge>>>)
    ensures r.Ok? ==> |r.value| == |ordinals|
  {
    match incoming
    case Some(columns) => DecodeDirection(nids, ordinals, columns, l)
    case None => Ok(seq(|ordinals|, _ => []))
  }

  function DecodeGroup(
    nids: seq<u64>, rowCount: nat, nodes: Group, outgoing: Columns, incoming: Option<Columns>, overflow: Option<Group>,
    l: Layout): (r: Result<seq<Row>>)
  {
    var ordinals :- ReadOrdinals(nids, nodes, rowCount);
    var inlineOut :- DecodeDirection(nids, ordinals, outgoing, l);
    var inlineIn :- DecodeIncoming(nids, ordinals, incoming, l);
    var chains :- match overflow {
      case Some(frame) => DecodeOverflowGroup(nids, ordinals, frame, incoming.Some?, l)
      case None => Ok([])
    };
    :- Need(RowsDivided(inlineOut, chains, Outgoing, l) && RowsDivided(inlineIn, chains, Incoming, l));
    Ok(Zip(ordinals, Expand(inlineOut, chains, Outgoing), Expand(inlineIn, chains, Incoming)))
  }

  // ----- The loader undoes the writer -----

  /** Rows the builder hands to the writer. */
  predicate RowsBuilt(nids: seq<u64>, rows: seq<Row>, csc: bool, l: Layout) {
    && OrdinalsValid(nids, Ordinals(rows))
    && forall i :: 0 <= i < |rows| ==>
         && RowValid(nids, rows[i].node, rows[i].outgoing, l)
         && RowValid(nids, rows[i].node, rows[i].incoming, l)
         && (!csc ==> rows[i].incoming == [])
  }

  lemma {:induction false} PrefixValid(nids: seq<u64>, node: u32, row: seq<Edge>, l: Layout, k: nat)
    requires RowValid(nids, node, row, l) && k <= |row|
    ensures RowValid(nids, node, row[..k], l)
  {
    hide EdgeValid;
    AscendingPrefix(row, EdgeKey, k);
  }

  lemma {:induction false} AscendingPrefix<T>(items: seq<T>, key: T -> Key, k: nat)
    requires Ascending(items, key) && k <= |items|
    ensures Ascending(items[..k], key)
    decreases |items|
  {
    if k > 1 {
      AscendingPrefix(items[1..], key, k - 1);
      assert items[..k][1..] == items[1..][..k - 1];
    }
  }

  lemma {:induction false} ColumnsRead(nids: seq<u64>, rows: seq<Row>, d: Direction, csc: bool, l: Layout, c: Columns)
    requires l.Valid() && RowsBuilt(nids, rows, csc, l)
    requires EncodeColumns(InlineRows(Side(rows, d), l), l) == Ok(c)
    ensures DecodeDirection(nids, Ordinals(rows), c, l) == Ok(InlineRows(Side(rows, d), l))
  {
    hide RowValid, OrdinalsValid, EncodeColumns, DecodeDirection, PrefixCount;
    var side := Side(rows, d);
    forall i | 0 <= i < |rows| ensures RowValid(nids, rows[i].node, WrittenInline(side[i], TupleLen(l)), l) {
      PrefixValid(nids, rows[i].node, side[i], l, PrefixCount(side[i], TupleLen(l), 0));
    }
    DirectionRoundTrip(nids, Ordinals(rows), InlineRows(side, l), l, c);
  }

  /** Which chains a direction contributes. */
  lemma {:induction false} ChainMember(rows: seq<seq<Edge>>, d: Direction, l: Layout, from: nat, c: Chain)
    requires from <= |rows| < U32_LIMIT
    ensures c in OverflowChains(rows, d, l, from) <==>
      && from <= c.row < |rows| && c.direction == d
      && InlineCount(rows[c.row], l) < |rows[c.row]|
      && c.edges == rows[c.row][InlineCount(rows[c.row], l)..]
    decreases |rows| - from
  {
    hide InlineCount;
    if from < |rows| {
      ChainMember(rows, d, l, from + 1, c);
    }
  }

  lemma {:induction false} GroupChainMember(rows: seq<Row>, csc: bool, l: Layout, c: Chain)
    requires |rows| < U32_LIMIT
    ensures c in GroupChains(rows, csc, l) <==>
      && c.row < |rows| && (c.direction.Incoming? ==> csc)
      && var row := Side(rows, c.direction)[c.row];
      && InlineCount(row, l) < |row| && c.edges == row[InlineCount(row, l)..]
  {
    hide InlineCount, OverflowChains;
    var out := OverflowChains(Side(rows, Outgoing), Outgoing, l, 0);
    var inc := if csc then OverflowChains(Side(rows, Incoming), Incoming, l, 0) else [];
    SortMember(out + inc, ChainKey, c);
    ChainMember(Side(rows, Outgoing), Outgoing, l, 0, c);
    ChainMember(Side(rows, Incoming), Incoming, l, 0, c);
  }

  /** Looking up a row's chain finds exactly the suffix the writer cut off. */
  lemma {:induction false} ChainForRow(rows: seq<Row>, csc: bool, l: Layout, i: nat, d: Direction)
    requires |rows| < U32_LIMIT && i < |rows| && (d.Incoming? ==> csc)
    requires Ascending(GroupChains(rows, csc, l), ChainKey)
    ensures var row := Side(rows, d)[i];
      var k := InlineCount(row, l);
      ChainFor(GroupChains(rows, csc, l), i, d) == if k < |row| then Some(row[k..]) else None
  {
    hide InlineCount, GroupChains, Ascending;
    var chains := GroupChains(rows, csc, l);
    var row := Side(rows, d)[i];
    var k := InlineCount(row, l);
    if k < |row| {
      var c := Chain(i, d, row[k..]);
      GroupChainMember(rows, csc, l, c);
      ChainForMember(chains, c);
      var m := ChainForIndex(chains, i, d);
      GroupChainMember(rows, csc, l, chains[m]);
    } else if ChainFor(chains, i, d).Some? {
      var m := ChainForIndex(chains, i, d);
      GroupChainMember(rows, csc, l, chains[m]);
      assert false;
    }
  }

  lemma {:induction false} ChainForMember(chains: seq<Chain>, c: Chain)
    requires c in chains
    ensures ChainFor(chains, c.row, c.direction).Some?
  {
    if chains[0] != c {
      ChainForMember(chains[1..], c);
    }
  }

  /** Inline part plus suffix is the row again, divided as the loader demands. */
  lemma {:induction false} RowRejoins(nids: seq<u64>, node: u32, row: seq<Edge>, l: Layout)
    requires RowValid(nids, node, row, l)
    ensures var k := InlineCount(row, l);
      var suffix := if k < |row| then Some(row[k..]) else None;
      && ExpandRow(WrittenInline(row, TupleLen(l)), suffix) == row
      && RowDivided(WrittenInline(row, TupleLen(l)), suffix, l)
  {
    hide EdgeValid, RowSorted, PrefixCount, Sum, TupleLen;
    var k := InlineCount(row, l);
    PrefixCountMaximal(row, TupleLen(l), 0);
    assert row == row[..k] + row[k..];
    if k == |row| {
      assert row[..k] == row;
    }
  }

  lemma {:induction false} SideRejoins(
    nids: seq<u64>, rows: seq<Row>, csc: bool, l: Layout, d: Direction, chains: seq<Chain>)
    requires |rows| < U32_LIMIT && RowsBuilt(nids, rows, csc, l) && (d.Incoming? ==> csc)
    requires chains == GroupChains(rows, csc, l) && Ascending(chains, ChainKey)
    ensures var inline := InlineRows(Side(rows, d), l);
      RowsDivided(inline, chains, d, l) && Expand(inline, chains, d) == Side(rows, d)
  {
    hide RowValid, OrdinalsValid, GroupChains, RowDivided, ExpandRow, ChainFor, WrittenInline, InlineCount, Ascending;
    var side := Side(rows, d);
    var inline := InlineRows(side, l);
    forall i | 0 <= i < |rows|
      ensures RowDivided(inline[i], ChainFor(chains, i, d), l)
      ensures ExpandRow(inline[i], ChainFor(chains, i, d)) == side[i]
    {
      ChainForRow(rows, csc, l, i, d);
      RowRejoins(nids, rows[i].node, side[i], l);
    }
  }

  lemma {:induction false} ChainsValid(nids: seq<u64>, rows: seq<Row>, csc: bool, l: Layout, chains: seq<Chain>)
    requires |rows| < U32_LIMIT && RowsBuilt(nids, rows, csc, l)
    requires chains == GroupChains(rows, csc, l)
    ensures forall k :: 0 <= k < |chains| ==> ChainValid(nids, Ordinals(rows), chains[k], csc, l)
  {
    hide EdgeValid, RowSorted, OrdinalsValid, GroupChains, InlineCount;
    forall k | 0 <= k < |chains| ensures ChainValid(nids, Ordinals(rows), chains[k], csc, l) {
      assert chains[k] in chains;
      GroupChainMember(rows, csc, l, chains[k]);
      assert RowValid(nids, rows[chains[k].row].node, Side(rows, chains[k].direction)[chains[k].row], l);
    }
  }

  /** Without the reverse side there is nothing to load, and no chain claims to be incoming. */
  lemma {:induction false} IncomingAbsent(nids: seq<u64>, rows: seq<Row>, l: Layout, chains: seq<Chain>)
    requires |rows| < U32_LIMIT && RowsBuilt(nids, rows, false, l) && chains == GroupChains(rows, false, l)
    ensures var empty := seq(|rows|, _ => []);
      RowsDivided(empty, chains, Incoming, l) && Expand(empty, chains, Incoming) == Side(rows, Incoming)
  {
    hide RowValid, OrdinalsValid, GroupChains;
    forall i | 0 <= i < |rows| ensures ChainFor(chains, i, Incoming).None? {
      if ChainFor(chains, i, Incoming).Some? {
        var m := ChainForIndex(chains, i, Incoming);
        GroupChainMember(rows, false, l, chains[m]);
        assert false;
      }
    }
  }

  lemma {:induction false} OrdinalsRead(nids: seq<u64>, rows: seq<Row>)
    requires |rows| < U32_LIMIT && OrdinalsValid(nids, Ordinals(rows))
    ensures ReadOrdinals(nids, Group(|rows|, PutWords(Ordinals(rows), 4)), |rows|) == Ok(Ordinals(rows))
  {
    hide Words, PutWords, OrdinalsValid;
    PowValues();
    WordsRoundTrip(Ordinals(rows), 4);
  }

  /** How the frames of a group come back: the overflow section is absent when no group has a chain. */
  predicate FramesLoaded(f: GroupFrames, overflow: Option<Group>) {
    match overflow
    case Some(frame) => frame.elemCount == f.chainCount && frame.payload == f.overflow
    case None => f.chainCount == 0
  }

  lemma {:induction false} ChainsLoad(
    nids: seq<u64>, rows: seq<Row>, csc: bool, l: Layout, f: GroupFrames, overflow: Option<Group>)
    requires l.Valid() && RowsBuilt(nids, rows, csc, l)
    requires EncodeGroup(rows, csc, l) == Ok(f) && FramesLoaded(f, overflow)
    ensures |rows| < U32_LIMIT && f.incoming.Some? == csc && Ascending(GroupChains(rows, csc, l), ChainKey)
    ensures overflow.Some? ==>
      DecodeOverflowGroup(nids, Ordinals(rows), overflow.value, csc, l) == Ok(GroupChains(rows, csc, l))
    ensures overflow.None? ==> GroupChains(rows, csc, l) == []
  {
    hide EncodeColumns, GroupChains, EncodeOverflowGroup, DecodeOverflowGroup, RowValid, OrdinalsValid, Ascending,
      ChainValid;
    var chains := GroupChains(rows, csc, l);
    ChainsValid(nids, rows, csc, l, chains);
    if overflow.Some? {
      OverflowRoundTrip(nids, Ordinals(rows), chains, csc, l, f.overflow);
      assert overflow.value == Group(|chains|, f.overflow);
    }
  }

  lemma {:induction false} SidesLoad(nids: seq<u64>, rows: seq<Row>, csc: bool, l: Layout, f: GroupFrames)
    requires l.Valid() && RowsBuilt(nids, rows, csc, l) && EncodeGroup(rows, csc, l) == Ok(f)
    ensures DecodeDirection(nids, Ordinals(rows), f.outgoing, l) == Ok(InlineRows(Side(rows, Outgoing), l))
    ensures DecodeIncoming(nids, Ordinals(rows), f.incoming, l) ==
      Ok(if csc then InlineRows(Side(rows, Incoming), l) else seq(|rows|, _ => []))
  {
    hide EncodeColumns, GroupChains, EncodeOverflowGroup, DecodeDirection, RowValid, OrdinalsValid, Ascending,
      InlineRows;
    ColumnsRead(nids, rows, Outgoing, csc, l, f.outgoing);
    if csc {
      ColumnsRead(nids, rows, Incoming, csc, l, f.incoming.value);
    }
  }

  /** Decoding the frames of a group returns its rows: inline parts and overflow chains rejoined. */
  lemma {:induction false} GroupRoundTrip(
    nids: seq<u64>, rows: seq<Row>, csc: bool, l: Layout, f: GroupFrames, overflow: Option<Group>)
    requires l.Valid() && RowsBuilt(nids, rows, csc, l)
    requires EncodeGroup(rows, csc, l) == Ok(f) && FramesLoaded(f, overflow)
    ensures DecodeGroup(nids, |rows|, f.nodes, f.outgoing, f.incoming, overflow, l) == Ok(rows)
  {
    hide RowValid, OrdinalsValid, EncodeColumns, DecodeDirection, DecodeIncoming, GroupChains, ReadOrdinals,
      DecodeOverflowGroup, EncodeOverflowGroup, RowsDivided, Ascending, InlineRows, EncodeIncoming, FramesLoaded;
    var chains := GroupChains(rows, csc, l);
    ChainsLoad(nids, rows, csc, l, f, overflow);
    SidesLoad(nids, rows, csc, l, f);
    OrdinalsRead(nids, rows);
    SideRejoins(nids, rows, csc, l, Outgoing, chains);
    if csc {
      SideRejoins(nids, rows, csc, l, Incoming, chains);
    } else {
      IncomingAbsent(nids, rows, l, chains);
    }
    assert Zip(Ordinals(rows), Side(rows, Outgoing), Side(rows, Incoming)) == rows;
  }
}
