/** Building an adjacency (`BaseAdjacency::build_with_options` in
    `graph_edge.rs`): namespaces, rows and entries are sorted, identities and
    weights checked, and the types collected. */
module AdjacencyBuilder {
  import opened Wrappers
  import opened Bytes
  import opened Ordering
  import opened TaggedNeighbors
  import opened GroupedSections
  import opened Namespaces
  import opened EdgeTuples
  import opened EdgeColumns
  import opened EdgeOverflow
  import opened EdgeGroups

  datatype NeighborInput = LocalOrdinal(ordinal: u32) | GlobalNid(nid: u64)
  datatype EdgeInput = EdgeInput(neighbor: NeighborInput, edgeId: u64, typeId: u32, weight: Option<u32>)
  datatype RowInput = RowInput(node: u32, outgoing: seq<EdgeInput>, incoming: seq<EdgeInput>)
  datatype GroupInput = GroupInput(namespace: Namespace, rows: seq<RowInput>)

  datatype NamespaceGroup = NamespaceGroup(namespace: Namespace, rows: seq<Row>)
  datatype Adjacency = Adjacency(groups: seq<NamespaceGroup>, csc: bool, layout: Layout)

  // ----- Normalising one entry, one row, one group -----

  function NormalizeNeighbor(nids: seq<u64>, node: u32, n: NeighborInput): Result<(Neighbor, u64)> {
    match n
    case LocalOrdinal(ordinal) =>
      var nid :- LocalNid(nids, ordinal);
      Ok((LocalDelta(ordinal - node), nid))
    case GlobalNid(nid) =>
      // A handle the index knows must be given as a local ordinal.
      if ValidHandle(nid) && nid !in nids then Ok((Global(nid), nid)) else Err
  }

  function NormalizeEdge(nids: seq<u64>, node: u32, e: EdgeInput): Result<Edge> {
    if !ValidHandle(e.edgeId) || e.typeId == 0 || (e.weight.Some? && !FiniteF32(e.weight.value)) then Err
    else
      var (stored, nid) :- NormalizeNeighbor(nids, node, e.neighbor);
      Ok(Edge(stored, nid, e.edgeId, e.typeId, e.weight))
  }

  function NormalizeEdges(nids: seq<u64>, node: u32, edges: seq<EdgeInput>): (r: Result<seq<Edge>>)
    ensures r.Ok? ==> |r.value| == |edges|
  {
    if edges == [] then Ok([])
    else
      var edge :- NormalizeEdge(nids, node, edges[0]);
      var rest :- NormalizeEdges(nids, node, edges[1..]);
      Ok([edge] + rest)
  }

  function NormalizeRow(nids: seq<u64>, row: RowInput, csc: bool): Result<Row> {
    if LocalNid(nids, row.node).Err? || (!csc && row.incoming != []) then Err
    else
      var outgoing :- NormalizeEdges(nids, row.node, row.outgoing);
      var incoming :- NormalizeEdges(nids, row.node, row.incoming);
      Ok(Row(row.node, Sort(outgoing, EdgeKey), Sort(incoming, EdgeKey)))
  }

  function NormalizeRows(nids: seq<u64>, rows: seq<RowInput>, csc: bool): (r: Result<seq<Row>>)
    ensures r.Ok? ==> |r.value| == |rows|
    ensures r.Ok? ==> forall i :: 0 <= i < |rows| ==> r.value[i].node == rows[i].node
  {
    if rows == [] then Ok([])
    else
      var row :- NormalizeRow(nids, rows[0], csc);
      var rest :- NormalizeRows(nids, rows[1..], csc);
      Ok([row] + rest)
  }

  function NormalizeGroup(nids: seq<u64>, g: GroupInput, csc: bool): Result<NamespaceGroup> {
    var sorted := Sort(g.rows, (r: RowInput) => [r.node]);
    :- Need(sorted != [] && Ascending(sorted, (r: RowInput) => [r.node]));
    var rows :- NormalizeRows(nids, sorted, csc);
    Ok(NamespaceGroup(g.namespace, rows))
  }

  function NormalizeGroups(nids: seq<u64>, groups: seq<GroupInput>, csc: bool): (r: Result<seq<NamespaceGroup>>)
    ensures r.Ok? ==> |r.value| == |groups|
    ensures r.Ok? ==> forall i :: 0 <= i < |groups| ==> r.value[i].namespace == groups[i].namespace
  {
    if groups == [] then Ok([])
    else
      var group :- NormalizeGroup(nids, groups[0], csc);
      var rest :- NormalizeGroups(nids, groups[1..], csc);
      Ok([group] + rest)
  }

  // ----- Facts about all entries -----

  function GroupEdges(groups: seq<NamespaceGroup>, d: Direction): (r: seq<seq<Edge>>)
    ensures |r| == |groups| && forall i :: 0 <= i < |r| ==> r[i] == Flat(Side(groups[i].rows, d))
  {
    seq(|groups|, i requires 0 <= i < |groups| => Flat(Side(groups[i].rows, d)))
  }

  /** Every entry of one direction, group by group and row by row. */
  function EdgesOf(groups: seq<NamespaceGroup>, d: Direction): seq<Edge> {
    Flat(GroupEdges(groups, d))
  }

  function AllEdges(groups: seq<NamespaceGroup>): seq<Edge> {
    EdgesOf(groups, Outgoing) + EdgesOf(groups, Incoming)
  }

  /** No edge id occurs twice. */
  predicate IdsDistinct(edges: seq<Edge>) {
    forall i, j :: 0 <= i < j < |edges| ==> edges[i].edgeId != edges[j].edgeId
  }

  predicate Weighted(edges: seq<Edge>) {
    edges != [] && edges[0].weight.Some?
  }

  /** The weight column is total: every entry has a weight or none has. */
  predicate WeightsTotal(edges: seq<Edge>) {
    forall i :: 0 <= i < |edges| ==> edges[i].weight.Some? == Weighted(edges)
  }

  datatype Mirror = Mirror(group: nat, source: int, target: int, typeId: u32, weight: Option<u32>)

  function RowMirrors(group: nat, node: u32, edges: seq<Edge>, d: Direction): map<u64, Mirror> {
    if edges == [] then map[]
    else
      var e := edges[|edges| - 1];
      var front := RowMirrors(group, node, edges[..|edges| - 1], d);
      if e.stored.LocalDelta? then
        var other := node + e.stored.delta;
        front[e.edgeId := if d.Outgoing? then Mirror(group, node, other, e.typeId, e.weight)
                          else Mirror(group, other, node, e.typeId, e.weight)]
      else front
  }

  function RowsMirrors(group: nat, rows: seq<Row>, d: Direction): map<u64, Mirror> {
    if rows == [] then map[]
    else
      var row := rows[|rows| - 1];
      RowsMirrors(group, rows[..|rows| - 1], d)
        + RowMirrors(group, row.node, if d.Outgoing? then row.outgoing else row.incoming, d)
  }

  /** The local entries of one direction by edge id: source, target, type and weight. */
  function Mirrors(groups: seq<NamespaceGroup>, d: Direction): map<u64, Mirror> {
    if groups == [] then map[]
    else
      var n := |groups| - 1;
      Mirrors(groups[..n], d) + RowsMirrors(n, groups[n].rows, d)
  }

  predicate MirrorsAgree(groups: seq<NamespaceGroup>) {
    Mirrors(groups, Outgoing) == Mirrors(groups, Incoming)
  }

  // ----- The types in use -----

  function InsertType(t: u32, sorted: seq<u32>): seq<u32> {
    if sorted == [] || t < sorted[0] then [t] + sorted
    else if t == sorted[0] then sorted
    else [sorted[0]] + InsertType(t, sorted[1..])
  }

  /** The types in use, each once, ascending. */
  function TypeList(edges: seq<Edge>): seq<u32> {
    if edges == [] then [] else InsertType(edges[0].typeId, TypeList(edges[1..]))
  }

  predicate TypesAscending(types: seq<u32>) {
    |types| <= 1 || (types[0] < types[1] && TypesAscending(types[1..]))
  }

  lemma {:induction false} InsertTypeFacts(t: u32, sorted: seq<u32>)
    requires TypesAscending(sorted)
    ensures TypesAscending(InsertType(t, sorted))
    ensures forall x :: x in InsertType(t, sorted) <==> x == t || x in sorted
  {
    if sorted != [] && t > sorted[0] {
      InsertTypeFacts(t, sorted[1..]);
      assert sorted == [sorted[0]] + sorted[1..];
    }
  }

  predicate UsesType(edges: seq<Edge>, t: u32) {
    exists i :: 0 <= i < |edges| && edges[i].typeId == t
  }

  lemma {:induction false} TypeListFacts(edges: seq<Edge>)
    ensures TypesAscending(TypeList(edges))
    ensures forall x :: x in TypeList(edges) <==> UsesType(edges, x)
  {
    if edges != [] {
      TypeListFacts(edges[1..]);
      InsertTypeFacts(edges[0].typeId, TypeList(edges[1..]));
      forall x ensures x in TypeList(edges) <==> UsesType(edges, x) {
        if UsesType(edges[1..], x) {
          var i :| 0 <= i < |edges| - 1 && edges[1..][i].typeId == x;
          assert edges[i + 1].typeId == x;
        }
        if UsesType(edges, x) {
          var i :| 0 <= i < |edges| && edges[i].typeId == x;
          assert i > 0 ==> edges[1..][i - 1].typeId == x;
        }
      }
    }
  }

  lemma {:induction false} TypesClimb(types: seq<u32>, j: nat)
    requires TypesAscending(types) && 0 < j < |types|
    ensures types[0] < types[j]
    decreases |types|
  {
    if j > 1 {
      TypesClimb(types[1..], j - 1);
    }
  }

  lemma {:induction false} TypesCounted(types: seq<u32>)
    requires TypesAscending(types)
    ensures |set i | 0 <= i < |types| :: types[i]| == |types|
  {
    var all := set i | 0 <= i < |types| :: types[i];
    if types == [] {
      assert all == {};
    } else {
      var tail := types[1..];
      TypesCounted(tail);
      var rest := set i | 0 <= i < |tail| :: tail[i];
      forall x ensures x in all <==> x in rest + {types[0]} {
        if i :| 0 <= i < |types| && types[i] == x {
          assert i > 0 ==> tail[i - 1] == x;
        }
        if i :| 0 <= i < |tail| && tail[i] == x {
          assert types[i + 1] == x;
        }
      }
      assert all == rest + {types[0]};
      forall i | 0 <= i < |tail| ensures tail[i] != types[0] {
        TypesClimb(types, i + 1);
      }
      assert types[0] !in rest;
    }
  }

  // ----- The builder -----

  function GroupKey(g: NamespaceGroup): Key {
    NamespaceKey(g.namespace)
  }

  predicate Admissible(groups: seq<NamespaceGroup>, csc: bool) {
    && IdsDistinct(EdgesOf(groups, Outgoing))
    && IdsDistinct(EdgesOf(groups, Incoming))
    && WeightsTotal(AllEdges(groups))
    && (csc ==> MirrorsAgree(groups))
    && |EdgesOf(groups, Outgoing)| < U32_LIMIT
    && |EdgesOf(groups, Incoming)| < U32_LIMIT
  }

  function Build(nids: seq<u64>, groups: seq<GroupInput>, csc: bool, useRemap: bool): Result<Adjacency> {
    var sorted := Sort(groups, (g: GroupInput) => NamespaceKey(g.namespace));
    :- Need(Ascending(sorted, (g: GroupInput) => NamespaceKey(g.namespace)));
    var normal :- NormalizeGroups(nids, sorted, csc);
    :- Need(Admissible(normal, csc));
    var types := TypeList(AllEdges(normal));
    :- Need(useRemap ==> 0 < |types| <= 65536);
    Ok(Adjacency(normal, csc, Layout(if useRemap then Some(types) else None, Weighted(AllEdges(normal)))))
  }

  // ----- What a built adjacency guarantees -----

  /** A normalised entry, before the layout is known. */
  predicate EdgeNormal(nids: seq<u64>, node: u32, e: Edge) {
    && ValidHandle(e.edgeId)
    && e.typeId != 0
    && (e.weight.Some? ==> FiniteF32(e.weight.value))
    && Encodable(e.stored)
    && ResolveNeighbor(nids, node, e.stored) == Ok(e.nid)
  }

  lemma {:induction false} NormalizedEdge(nids: seq<u64>, node: u32, e: EdgeInput)
    requires NormalizeEdge(nids, node, e).Ok?
    ensures EdgeNormal(nids, node, NormalizeEdge(nids, node, e).value)
  {
  }

  lemma {:induction false} NormalizedEdges(nids: seq<u64>, node: u32, edges: seq<EdgeInput>)
    requires NormalizeEdges(nids, node, edges).Ok?
    ensures forall i :: 0 <= i < |edges| ==> EdgeNormal(nids, node, NormalizeEdges(nids, node, edges).value[i])
  {
    hide NormalizeEdge, EdgeNormal;
    if edges != [] {
      NormalizedEdge(nids, node, edges[0]);
      NormalizedEdges(nids, node, edges[1..]);
    }
  }

  predicate RowNormal(nids: seq<u64>, row: Row, csc: bool) {
    && LocalNid(nids, row.node).Ok?
    && (forall i :: 0 <= i < |row.outgoing| ==> EdgeNormal(nids, row.node, row.outgoing[i]))
    && (forall i :: 0 <= i < |row.incoming| ==> EdgeNormal(nids, row.node, row.incoming[i]))
    && Sorted(row.outgoing, EdgeKey) && Sorted(row.incoming, EdgeKey)
    && (!csc ==> row.incoming == [])
  }

  lemma {:induction false} NormalizedRow(nids: seq<u64>, row: RowInput, csc: bool)
    requires NormalizeRow(nids, row, csc).Ok?
    ensures RowNormal(nids, NormalizeRow(nids, row, csc).value, csc)
  {
    hide EdgeNormal, NormalizeEdges, Sort, Sorted, EdgeKey;
    NormalizedEdges(nids, row.node, row.outgoing);
    NormalizedEdges(nids, row.node, row.incoming);
    var outgoing := NormalizeEdges(nids, row.node, row.outgoing).value;
    var incoming := NormalizeEdges(nids, row.node, row.incoming).value;
    SortKeeps(outgoing, EdgeKey, (e: Edge) => EdgeNormal(nids, row.node, e));
    SortKeeps(incoming, EdgeKey, (e: Edge) => EdgeNormal(nids, row.node, e));
    SortSorted(outgoing, EdgeKey);
    SortSorted(incoming, EdgeKey);
  }

  lemma {:induction false} NormalizedRows(nids: seq<u64>, rows: seq<RowInput>, csc: bool)
    requires NormalizeRows(nids, rows, csc).Ok?
    ensures forall i :: 0 <= i < |rows| ==> RowNormal(nids, NormalizeRows(nids, rows, csc).value[i], csc)
  {
    hide NormalizeRow, RowNormal;
    if rows != [] {
      NormalizedRow(nids, rows[0], csc);
      NormalizedRows(nids, rows[1..], csc);
    }
  }

  lemma {:induction false} AscendingNodes(inputs: seq<RowInput>, rows: seq<Row>)
    requires |inputs| == |rows| && forall i :: 0 <= i < |rows| ==> rows[i].node == inputs[i].node
    requires Ascending(inputs, (r: RowInput) => [r.node])
    ensures Ascending(Ordinals(rows), (n: u32) => [n])
  {
    if |rows| > 1 {
      AscendingNodes(inputs[1..], rows[1..]);
      assert Ordinals(rows[1..]) == Ordinals(rows)[1..];
    }
  }

  predicate GroupNormal(nids: seq<u64>, g: NamespaceGroup, csc: bool) {
    && g.rows != []
    && OrdinalsValid(nids, Ordinals(g.rows))
    && forall i :: 0 <= i < |g.rows| ==> RowNormal(nids, g.rows[i], csc)
  }

  lemma {:induction false} NormalizedGroup(nids: seq<u64>, g: GroupInput, csc: bool)
    requires NormalizeGroup(nids, g, csc).Ok?
    ensures GroupNormal(nids, NormalizeGroup(nids, g, csc).value, csc)
  {
    hide Sort, NormalizeRows, EdgeNormal, Ascending;
    var sorted := Sort(g.rows, (r: RowInput) => [r.node]);
    var rows := NormalizeRows(nids, sorted, csc).value;
    NormalizedRows(nids, sorted, csc);
    AscendingNodes(sorted, rows);
    assert forall i :: 0 <= i < |rows| ==> RowNormal(nids, rows[i], csc);
  }

  lemma {:induction false} NormalizedGroups(nids: seq<u64>, groups: seq<GroupInput>, csc: bool)
    requires NormalizeGroups(nids, groups, csc).Ok?
    ensures forall i :: 0 <= i < |groups| ==> GroupNormal(nids, NormalizeGroups(nids, groups, csc).value[i], csc)
  {
    hide NormalizeGroup, GroupNormal;
    if groups != [] {
      NormalizedGroup(nids, groups[0], csc);
      NormalizedGroups(nids, groups[1..], csc);
    }
  }

  /** Position of an entry among all entries of its direction. */
  lemma {:induction false} EdgePosition(groups: seq<NamespaceGroup>, d: Direction, g: nat, r: nat) returns (at: nat)
    requires g < |groups| && r < |groups[g].rows|
    ensures var row := Side(groups[g].rows, d)[r];
      at + |row| <= |EdgesOf(groups, d)| && EdgesOf(groups, d)[at..at + |row|] == row
  {
    hide Flat;
    var lists := GroupEdges(groups, d);
    var side := Side(groups[g].rows, d);
    FlatSlice(lists, g);
    FlatSlice(side, r);
    var a, b := Start(lists, g), Start(side, r);
    at := a + b;
    SubSlice(Flat(lists), a, a + |lists[g]|, b, b + |side[r]|);
  }

  /** Distinct ids make a sorted row strictly ascending. */
  lemma {:induction false} RowAscends(edges: seq<Edge>)
    requires Sorted(edges, EdgeKey) && IdsDistinct(edges)
    ensures RowSorted(edges)
  {
    if |edges| > 1 {
      RowAscends(edges[1..]);
      LessTotal(EdgeKey(edges[0]), EdgeKey(edges[1]));
    }
  }

  lemma {:induction false} SliceDistinct(edges: seq<Edge>, from: nat, to: nat)
    requires IdsDistinct(edges) && from <= to <= |edges|
    ensures IdsDistinct(edges[from..to])
  {
  }

  lemma {:induction false} RowBuilt(
    nids: seq<u64>, groups: seq<NamespaceGroup>, csc: bool, l: Layout, g: nat, r: nat, d: Direction)
    requires g < |groups| && r < |groups[g].rows| && RowNormal(nids, groups[g].rows[r], csc)
    requires Admissible(groups, csc)
    requires l.weighted == Weighted(AllEdges(groups))
    requires l.remap.Some? ==> l.remap.value == TypeList(AllEdges(groups))
    ensures RowValid(nids, groups[g].rows[r].node, Side(groups[g].rows, d)[r], l)
  {
    hide EdgeNormal, EdgesOf, TypeList, MirrorsAgree, Sorted, RowSorted;
    var node, row := groups[g].rows[r].node, Side(groups[g].rows, d)[r];
    var at := EdgePosition(groups, d, g, r);
    var edges := EdgesOf(groups, d);
    SliceDistinct(edges, at, at + |row|);
    RowAscends(row);
    var all := AllEdges(groups);
    var shift := if d.Outgoing? then 0 else |EdgesOf(groups, Outgoing)|;
    TypeListFacts(all);
    forall i | 0 <= i < |row| ensures EdgeValid(nids, node, row[i], l) {
      assert all[shift + at + i] == edges[at + i] == edges[at..at + |row|][i] == row[i];
      assert UsesType(all, row[i].typeId);
      EdgeBuilt(nids, node, row[i], l);
    }
  }

  lemma {:induction false} EdgeBuilt(nids: seq<u64>, node: u32, e: Edge, l: Layout)
    requires EdgeNormal(nids, node, e) && e.weight.Some? == l.weighted
    requires l.remap.Some? ==> e.typeId in l.remap.value
    ensures EdgeValid(nids, node, e, l)
  {
  }

  /** Everything the writer and the loader rely on holds of what the builder returns. */
  ghost predicate Built(nids: seq<u64>, a: Adjacency) {
    && a.layout.Valid()
    && Ascending(a.groups, GroupKey)
    && (forall g :: 0 <= g < |a.groups| ==>
           && a.groups[g].rows != []
           && RowsBuilt(nids, a.groups[g].rows, a.csc, a.layout))
    && Admissible(a.groups, a.csc)
    && (a.layout.remap.Some? ==> a.layout.remap.value == TypeList(AllEdges(a.groups)) != [])
  }

  lemma {:induction false} AscendingGroups(inputs: seq<GroupInput>, groups: seq<NamespaceGroup>)
    requires |inputs| == |groups| && forall i :: 0 <= i < |groups| ==> groups[i].namespace == inputs[i].namespace
    requires Ascending(inputs, (g: GroupInput) => NamespaceKey(g.namespace))
    ensures Ascending(groups, GroupKey)
  {
    if |groups| > 1 {
      AscendingGroups(inputs[1..], groups[1..]);
    }
  }

  lemma {:induction false} GroupBuilt(nids: seq<u64>, a: Adjacency, g: nat)
    requires g < |a.groups| && GroupNormal(nids, a.groups[g], a.csc) && Admissible(a.groups, a.csc)
    requires a.layout.weighted == Weighted(AllEdges(a.groups))
    requires a.layout.remap.Some? ==> a.layout.remap.value == TypeList(AllEdges(a.groups))
    ensures RowsBuilt(nids, a.groups[g].rows, a.csc, a.layout)
  {
    hide Admissible, RowValid, EdgeNormal, OrdinalsValid, AllEdges, TypeList, Weighted, LocalNid;
    var rows := a.groups[g].rows;
    forall r | 0 <= r < |rows|
      ensures RowValid(nids, rows[r].node, rows[r].outgoing, a.layout)
      ensures RowValid(nids, rows[r].node, rows[r].incoming, a.layout)
      ensures !a.csc ==> rows[r].incoming == []
    {
      assert RowNormal(nids, rows[r], a.csc);
      RowBuilt(nids, a.groups, a.csc, a.layout, g, r, Outgoing);
      RowBuilt(nids, a.groups, a.csc, a.layout, g, r, Incoming);
    }
  }

  lemma {:induction false} BuildEstablishes(
    nids: seq<u64>, groups: seq<GroupInput>, csc: bool, useRemap: bool, a: Adjacency)
    requires Build(nids, groups, csc, useRemap) == Ok(a)
    ensures Built(nids, a)
  {
    hide Sort, NormalizeGroups, Admissible, GroupNormal, RowsBuilt, Ascending, TypeList, AllEdges, Weighted,
      NamespaceKey;
    var sorted := Sort(groups, (g: GroupInput) => NamespaceKey(g.namespace));
    NormalizedGroups(nids, sorted, csc);
    AscendingGroups(sorted, a.groups);
    forall g | 0 <= g < |a.groups| ensures a.groups[g].rows != [] && RowsBuilt(nids, a.groups[g].rows, csc, a.layout) {
      GroupBuilt(nids, a, g);
      GroupNonEmpty(nids, a.groups[g], csc);
    }
  }

  lemma {:induction false} GroupNonEmpty(nids: seq<u64>, g: NamespaceGroup, csc: bool)
    requires GroupNormal(nids, g, csc)
    ensures g.rows != []
  {
  }

  // ----- Nothing is lost or invented -----

  /** What an entry says, apart from how its neighbour is stored. */
  datatype EdgeFact = EdgeFact(target: Option<u64>, edgeId: u64, typeId: u32, weight: Option<u32>)

  function TargetOf(nids: seq<u64>, n: NeighborInput): Option<u64> {
    match n
    case LocalOrdinal(ordinal) => if ordinal < |nids| then Some(nids[ordinal]) else None
    case GlobalNid(nid) => Some(nid)
  }

  function InputFacts(nids: seq<u64>, edges: seq<EdgeInput>): multiset<EdgeFact> {
    if edges == [] then multiset{}
    else
      var e := edges[0];
      multiset{EdgeFact(TargetOf(nids, e.neighbor), e.edgeId, e.typeId, e.weight)} + InputFacts(nids, edges[1..])
  }

  function FactOf(e: Edge): EdgeFact {
    EdgeFact(Some(e.nid), e.edgeId, e.typeId, e.weight)
  }

  function EdgeFacts(edges: seq<Edge>): multiset<EdgeFact> {
    if edges == [] then multiset{} else multiset{FactOf(edges[0])} + EdgeFacts(edges[1..])
  }

  lemma {:induction false} FactsInsert(e: Edge, sorted: seq<Edge>)
    ensures EdgeFacts(Insert(e, sorted, EdgeKey)) == multiset{FactOf(e)} + EdgeFacts(sorted)
  {
    hide EdgeKey, Less, FactOf;
    var r := Insert(e, sorted, EdgeKey);
    if sorted == [] || !Less(EdgeKey(sorted[0]), EdgeKey(e)) {
      assert r[1..] == sorted;
    } else {
      FactsInsert(e, sorted[1..]);
      assert r[1..] == Insert(e, sorted[1..], EdgeKey);
    }
  }

  lemma {:induction false} FactsSort(edges: seq<Edge>)
    ensures EdgeFacts(Sort(edges, EdgeKey)) == EdgeFacts(edges)
  {
    hide EdgeKey, FactOf;
    if edges != [] {
      FactsSort(edges[1..]);
      FactsInsert(edges[0], Sort(edges[1..], EdgeKey));
    }
  }

  lemma {:induction false} FactsNormalize(nids: seq<u64>, node: u32, edges: seq<EdgeInput>)
    requires NormalizeEdges(nids, node, edges).Ok?
    ensures EdgeFacts(NormalizeEdges(nids, node, edges).value) == InputFacts(nids, edges)
  {
    if edges != [] {
      FactsNormalize(nids, node, edges[1..]);
      var all := NormalizeEdges(nids, node, edges).value;
      assert all[1..] == NormalizeEdges(nids, node, edges[1..]).value;
    }
  }

  /** A row has its input's node and, on each side, exactly its input's entries. */
  predicate RowCarries(nids: seq<u64>, input: RowInput, row: Row) {
    && row.node == input.node
    && EdgeFacts(row.outgoing) == InputFacts(nids, input.outgoing)
    && EdgeFacts(row.incoming) == InputFacts(nids, input.incoming)
  }

  lemma {:induction false} RowConserves(nids: seq<u64>, input: RowInput, csc: bool)
    requires NormalizeRow(nids, input, csc).Ok?
    ensures RowCarries(nids, input, NormalizeRow(nids, input, csc).value)
  {
    hide NormalizeEdges, Sort, EdgeFacts, InputFacts;
    FactsNormalize(nids, input.node, input.outgoing);
    FactsNormalize(nids, input.node, input.incoming);
    FactsSort(NormalizeEdges(nids, input.node, input.outgoing).value);
    FactsSort(NormalizeEdges(nids, input.node, input.incoming).value);
  }

  lemma {:induction false} RowsConserve(nids: seq<u64>, inputs: seq<RowInput>, csc: bool)
    requires NormalizeRows(nids, inputs, csc).Ok?
    ensures forall i :: 0 <= i < |inputs| ==> RowCarries(nids, inputs[i], NormalizeRows(nids, inputs, csc).value[i])
  {
    hide NormalizeRow, RowCarries;
    if inputs != [] {
      RowConserves(nids, inputs[0], csc);
      RowsConserve(nids, inputs[1..], csc);
      var rows := NormalizeRows(nids, inputs, csc).value;
      forall i | 0 < i < |inputs| ensures RowCarries(nids, inputs[i], rows[i]) {
        assert inputs[i] == inputs[1..][i - 1] && rows[i] == NormalizeRows(nids, inputs[1..], csc).value[i - 1];
      }
    }
  }

  /** As many rows as the input, each input row carried by one of them. */
  predicate GroupCarries(nids: seq<u64>, input: GroupInput, g: NamespaceGroup) {
    && g.namespace == input.namespace && |g.rows| == |input.rows|
    && forall r :: r in input.rows ==> exists i :: 0 <= i < |g.rows| && RowCarries(nids, r, g.rows[i])
  }

  lemma {:induction false} GroupConserves(nids: seq<u64>, input: GroupInput, csc: bool)
    requires NormalizeGroup(nids, input, csc).Ok?
    ensures GroupCarries(nids, input, NormalizeGroup(nids, input, csc).value)
  {
    hide NormalizeRows, Sort, Ascending, RowCarries;
    var key := (r: RowInput) => [r.node];
    var sorted := Sort(input.rows, key);
    RowsConserve(nids, sorted, csc);
    var rows := NormalizeRows(nids, sorted, csc).value;
    forall r | r in input.rows ensures exists i :: 0 <= i < |rows| && RowCarries(nids, r, rows[i]) {
      SortMember(input.rows, key, r);
      var i :| 0 <= i < |sorted| && sorted[i] == r;
      assert RowCarries(nids, r, rows[i]);
    }
  }

  lemma {:induction false} GroupsConserve(nids: seq<u64>, inputs: seq<GroupInput>, csc: bool)
    requires NormalizeGroups(nids, inputs, csc).Ok?
    ensures forall i :: 0 <= i < |inputs| ==> GroupCarries(nids, inputs[i], NormalizeGroups(nids, inputs, csc).value[i])
  {
    hide NormalizeGroup, GroupCarries;
    if inputs != [] {
      GroupConserves(nids, inputs[0], csc);
      GroupsConserve(nids, inputs[1..], csc);
      var groups := NormalizeGroups(nids, inputs, csc).value;
      forall i | 0 < i < |inputs| ensures GroupCarries(nids, inputs[i], groups[i]) {
        assert inputs[i] == inputs[1..][i - 1] && groups[i] == NormalizeGroups(nids, inputs[1..], csc).value[i - 1];
      }
    }
  }

  /** The built adjacency holds every input group, row and entry, and no other: as many groups as were given,
      each given group carried by one, with the targets, ids, types and weights of its entries. */
  lemma {:induction false} BuildConserves(
    nids: seq<u64>, groups: seq<GroupInput>, csc: bool, useRemap: bool, a: Adjacency)
    requires Build(nids, groups, csc, useRemap) == Ok(a)
    ensures |a.groups| == |groups|
    ensures forall g :: g in groups ==> exists i :: 0 <= i < |a.groups| && GroupCarries(nids, g, a.groups[i])
  {
    hide NormalizeGroups, Sort, Ascending, GroupCarries, Admissible, TypeList, AllEdges, Weighted, NamespaceKey;
    var key := (g: GroupInput) => NamespaceKey(g.namespace);
    var sorted := Sort(groups, key);
    GroupsConserve(nids, sorted, csc);
    forall g | g in groups ensures exists i :: 0 <= i < |a.groups| && GroupCarries(nids, g, a.groups[i]) {
      SortMember(groups, key, g);
      var i :| 0 <= i < |sorted| && sorted[i] == g;
      assert GroupCarries(nids, g, a.groups[i]);
    }
  }

  // ----- The incoming side is the outgoing side seen from the other end -----

  function MirrorOf(group: nat, node: u32, e: Edge, d: Direction): Mirror
    requires e.stored.LocalDelta?
  {
    var other := node + e.stored.delta;
    if d.Outgoing? then Mirror(group, node, other, e.typeId, e.weight)
      else Mirror(group, other, node, e.typeId, e.weight)
  }

  /** Entry `i` of row `r` of group `g` is local, has this id, and runs between these nodes with this type and
      weight. */
  predicate EntryIs(groups: seq<NamespaceGroup>, d: Direction, g: nat, r: nat, i: nat, id: u64, m: Mirror) {
    && g < |groups| && r < |groups[g].rows| && i < |Side(groups[g].rows, d)[r]|
    && var e := Side(groups[g].rows, d)[r][i];
      e.stored.LocalDelta? && e.edgeId == id && MirrorOf(g, groups[g].rows[r].node, e, d) == m
  }

  /** Some local entry of this direction is the edge `id` between these nodes. */
  ghost predicate HasEntry(groups: seq<NamespaceGroup>, d: Direction, id: u64, m: Mirror) {
    exists g: nat, r: nat, i: nat :: EntryIs(groups, d, g, r, i, id, m)
  }

  /** An entry of a row, said without the groups. */
  predicate RowEntry(group: nat, node: u32, edges: seq<Edge>, d: Direction, i: nat, id: u64, m: Mirror) {
    i < |edges| && edges[i].stored.LocalDelta? && edges[i].edgeId == id && MirrorOf(group, node, edges[i], d) == m
  }

  lemma {:induction false} RowMirrorsMean(group: nat, node: u32, edges: seq<Edge>, d: Direction, id: u64)
    ensures id in RowMirrors(group, node, edges, d) ==>
      exists i: nat :: RowEntry(group, node, edges, d, i, id, RowMirrors(group, node, edges, d)[id])
    ensures (exists i: nat, m :: RowEntry(group, node, edges, d, i, id, m)) ==> id in RowMirrors(group, node, edges, d)
  {
    if edges != [] {
      var n := |edges| - 1;
      var front := edges[..n];
      RowMirrorsMean(group, node, front, d, id);
      var all := RowMirrors(group, node, edges, d);
      if id in all {
        if edges[n].stored.LocalDelta? && edges[n].edgeId == id {
          assert RowEntry(group, node, edges, d, n, id, all[id]);
        } else {
          var i: nat :| RowEntry(group, node, front, d, i, id, all[id]);
          assert RowEntry(group, node, edges, d, i, id, all[id]);
        }
      }
      if i: nat, m :| RowEntry(group, node, edges, d, i, id, m) {
        if i < n {
          assert RowEntry(group, node, front, d, i, id, m);
        }
      }
    }
  }

  predicate RowsEntry(group: nat, rows: seq<Row>, d: Direction, r: nat, i: nat, id: u64, m: Mirror) {
    r < |rows| && RowEntry(group, rows[r].node, if d.Outgoing? then rows[r].outgoing else rows[r].incoming, d, i, id, m)
  }

  lemma {:induction false} RowsMirrorsMean(group: nat, rows: seq<Row>, d: Direction, id: u64)
    ensures id in RowsMirrors(group, rows, d) ==>
      exists r: nat, i: nat :: RowsEntry(group, rows, d, r, i, id, RowsMirrors(group, rows, d)[id])
    ensures (exists r: nat, i: nat, m :: RowsEntry(group, rows, d, r, i, id, m)) ==> id in RowsMirrors(group, rows, d)
  {
    hide RowMirrors, RowEntry;
    if rows != [] {
      var n := |rows| - 1;
      var front, row := rows[..n], rows[n];
      var edges := if d.Outgoing? then row.outgoing else row.incoming;
      RowsMirrorsMean(group, front, d, id);
      RowMirrorsMean(group, row.node, edges, d, id);
      var all := RowsMirrors(group, rows, d);
      if id in RowMirrors(group, row.node, edges, d) {
        var i: nat :| RowEntry(group, row.node, edges, d, i, id, all[id]);
        assert RowsEntry(group, rows, d, n, i, id, all[id]);
      } else if id in all {
        var r: nat, i: nat :| RowsEntry(group, front, d, r, i, id, all[id]);
        assert RowsEntry(group, rows, d, r, i, id, all[id]);
      }
      if r: nat, i: nat, m :| RowsEntry(group, rows, d, r, i, id, m) {
        if r < n {
          assert RowsEntry(group, front, d, r, i, id, m);
        }
      }
    }
  }

  lemma {:induction false} EntryOfRows(
    groups: seq<NamespaceGroup>, d: Direction, g: nat, r: nat, i: nat, id: u64, m: Mirror)
    ensures EntryIs(groups, d, g, r, i, id, m) <==> g < |groups| && RowsEntry(g, groups[g].rows, d, r, i, id, m)
  {
  }

  lemma {:induction false} EntryStays(
    groups: seq<NamespaceGroup>, n: nat, d: Direction, g: nat, r: nat, i: nat, id: u64, m: Mirror)
    requires n <= |groups| && g < n
    ensures EntryIs(groups[..n], d, g, r, i, id, m) <==> EntryIs(groups, d, g, r, i, id, m)
  {
    EntryOfRows(groups[..n], d, g, r, i, id, m);
    EntryOfRows(groups, d, g, r, i, id, m);
  }

  /** The map of one direction takes its values from entries and misses none. */
  lemma {:induction false} MirrorsMean(groups: seq<NamespaceGroup>, d: Direction, id: u64)
    ensures id in Mirrors(groups, d) ==> HasEntry(groups, d, id, Mirrors(groups, d)[id])
    ensures (exists m :: HasEntry(groups, d, id, m)) ==> id in Mirrors(groups, d)
  {
    hide RowsMirrors, RowsEntry, EntryIs;
    if groups == [] {
      forall g: nat, r: nat, i: nat, m ensures !EntryIs(groups, d, g, r, i, id, m) {
        EntryOfRows(groups, d, g, r, i, id, m);
      }
    } else {
      var n := |groups| - 1;
      MirrorsMean(groups[..n], d, id);
      RowsMirrorsMean(n, groups[n].rows, d, id);
      var all := Mirrors(groups, d);
      if id in RowsMirrors(n, groups[n].rows, d) {
        var r: nat, i: nat :| RowsEntry(n, groups[n].rows, d, r, i, id, all[id]);
        EntryOfRows(groups, d, n, r, i, id, all[id]);
      } else if id in all {
        var g: nat, r: nat, i: nat :| EntryIs(groups[..n], d, g, r, i, id, all[id]);
        EntryOfRows(groups[..n], d, g, r, i, id, all[id]);
        EntryStays(groups, n, d, g, r, i, id, all[id]);
      }
      if m :| HasEntry(groups, d, id, m) {
        var g: nat, r: nat, i: nat :| EntryIs(groups, d, g, r, i, id, m);
        EntryOfRows(groups, d, g, r, i, id, m);
        if g < n {
          EntryStays(groups, n, d, g, r, i, id, m);
          assert HasEntry(groups[..n], d, id, m);
        }
      }
    }
  }

  /** With distinct ids an edge id belongs to one entry. */
  lemma {:induction false} EntryUnique(groups: seq<NamespaceGroup>, d: Direction, id: u64, m: Mirror, m': Mirror)
    requires IdsDistinct(EdgesOf(groups, d)) && HasEntry(groups, d, id, m) && HasEntry(groups, d, id, m')
    ensures m == m'
  {
    hide Flat, Start;
    var g: nat, r: nat, i: nat :| EntryIs(groups, d, g, r, i, id, m);
    var g': nat, r': nat, i': nat :| EntryIs(groups, d, g', r', i', id, m');
    EntryPlace(groups, d, g, r, i);
    EntryPlace(groups, d, g', r', i');
    assert EntryIndex(groups, d, g, r, i) == EntryIndex(groups, d, g', r', i');
    PlaceTells(groups, d, g, r, i, g', r', i');
  }

  /** Where an entry stands among all entries of its direction. */
  function EntryIndex(groups: seq<NamespaceGroup>, d: Direction, g: nat, r: nat, i: nat): nat
    requires g < |groups| && r < |groups[g].rows|
  {
    Start(GroupEdges(groups, d), g) + Start(Side(groups[g].rows, d), r) + i
  }

  lemma {:induction false} EntryPlace(groups: seq<NamespaceGroup>, d: Direction, g: nat, r: nat, i: nat)
    requires g < |groups| && r < |groups[g].rows| && i < |Side(groups[g].rows, d)[r]|
    ensures Start(Side(groups[g].rows, d), r) + i < |GroupEdges(groups, d)[g]|
    ensures EntryIndex(groups, d, g, r, i) < |EdgesOf(groups, d)|
      && EdgesOf(groups, d)[EntryIndex(groups, d, g, r, i)] == Side(groups[g].rows, d)[r][i]
  {
    hide Flat, Start;
    var lists, side := GroupEdges(groups, d), Side(groups[g].rows, d);
    FlatSlice(lists, g);
    FlatSlice(side, r);
    StartMonotone(side, r + 1, |side|);
    StartTotal(side);
    var a, b := Start(lists, g), Start(side, r);
    assert Flat(lists)[a..a + |lists[g]|][b + i] == Flat(lists)[a + b + i];
    assert Flat(side)[b..b + |side[r]|][i] == Flat(side)[b + i];
  }

  lemma {:induction false} PlaceTells(
    groups: seq<NamespaceGroup>, d: Direction, g: nat, r: nat, i: nat, g': nat, r': nat, i': nat)
    requires g < |groups| && r < |groups[g].rows| && i < |Side(groups[g].rows, d)[r]|
    requires g' < |groups| && r' < |groups[g'].rows| && i' < |Side(groups[g'].rows, d)[r']|
    requires EntryIndex(groups, d, g, r, i) == EntryIndex(groups, d, g', r', i')
    ensures g == g' && r == r' && i == i'
  {
    hide Flat, Start;
    var lists := GroupEdges(groups, d);
    EntryPlace(groups, d, g, r, i);
    EntryPlace(groups, d, g', r', i');
    SpansApart(lists, g, Start(Side(groups[g].rows, d), r) + i, g', Start(Side(groups[g'].rows, d), r') + i');
    SpansApart(Side(groups[g].rows, d), r, i, r', i');
  }

  lemma {:induction false} SpansApart<T>(items: seq<seq<T>>, a: nat, i: nat, b: nat, j: nat)
    requires a < |items| && b < |items| && i < |items[a]| && j < |items[b]|
      && Start(items, a) + i == Start(items, b) + j
    ensures a == b && i == j
  {
    hide Flat, Start;
    FlatSlice(items, a);
    FlatSlice(items, b);
    if a < b {
      StartMonotone(items, a + 1, b);
    } else if b < a {
      StartMonotone(items, b + 1, a);
    }
  }

  /** The mirror test of the builder and the loader holds exactly when both directions have the same local
      edges: same id, group, source, target, type and weight. */
  lemma {:induction false} MirrorsExact(groups: seq<NamespaceGroup>)
    requires IdsDistinct(EdgesOf(groups, Outgoing)) && IdsDistinct(EdgesOf(groups, Incoming))
    ensures MirrorsAgree(groups) <==> forall id, m :: HasEntry(groups, Outgoing, id, m) <==>
      HasEntry(groups, Incoming, id, m)
  {
    hide Mirrors, HasEntry, IdsDistinct, EdgesOf;
    forall id, m ensures HasEntry(groups, Outgoing, id, m) <==> Maps(Mirrors(groups, Outgoing), id, m) {
      MirrorIs(groups, Outgoing, id, m);
    }
    forall id, m ensures HasEntry(groups, Incoming, id, m) <==> Maps(Mirrors(groups, Incoming), id, m) {
      MirrorIs(groups, Incoming, id, m);
    }
    SameMaps(Mirrors(groups, Outgoing), Mirrors(groups, Incoming));
  }

  predicate Maps(a: map<u64, Mirror>, id: u64, m: Mirror) {
    id in a && a[id] == m
  }

  lemma {:induction false} MirrorIs(groups: seq<NamespaceGroup>, d: Direction, id: u64, m: Mirror)
    requires IdsDistinct(EdgesOf(groups, d))
    ensures HasEntry(groups, d, id, m) <==> Maps(Mirrors(groups, d), id, m)
  {
    hide Mirrors, HasEntry, IdsDistinct, EdgesOf;
    MirrorsMean(groups, d, id);
    if HasEntry(groups, d, id, m) {
      EntryUnique(groups, d, id, m, Mirrors(groups, d)[id]);
    }
  }

  lemma {:induction false} SameMaps(a: map<u64, Mirror>, b: map<u64, Mirror>)
    ensures a == b <==> forall id, m :: Maps(a, id, m) <==> Maps(b, id, m)
  {
    if forall id, m :: Maps(a, id, m) <==> Maps(b, id, m) {
      forall id ensures (id in a <==> id in b) && (id in a ==> a[id] == b[id]) {
        if id in a {
          assert Maps(a, id, a[id]);
        }
        if id in b {
          assert Maps(b, id, b[id]);
        }
      }
    }
  }
}
