/** Exactly which inputs `BaseAdjacency::build_with_options` in `graph_edge.rs`
    accepts, said about the input alone: the groups, rows and entries as they
    were given, before anything is sorted, resolved or collected. */
module BuildAcceptance {
  import opened Wrappers
  import opened Bytes
  import opened Ordering
  import opened TaggedNeighbors
  import opened GroupedSections
  import opened Namespaces
  import opened EdgeTuples
  import opened EdgeOverflow
  import opened EdgeGroups
  import opened AdjacencyBuilder

  // ----- The condition on the input -----

  function InputSide(row: RowInput, d: Direction): seq<EdgeInput> {
    if d.Outgoing? then row.outgoing else row.incoming
  }

  /** A node of the index with a valid handle. */
  predicate Known(nids: seq<u64>, ordinal: u32) {
    ordinal < |nids| && ValidHandle(nids[ordinal])
  }

  /** A valid id, a type, a finite weight if any, and a neighbour that is a known node or a valid handle the index
      does not hold. */
  predicate EntryAccepted(nids: seq<u64>, e: EdgeInput) {
    && ValidHandle(e.edgeId)
    && e.typeId != 0
    && (e.weight.Some? ==> FiniteF32(e.weight.value))
    && match e.neighbor
       case LocalOrdinal(ordinal) => Known(nids, ordinal)
       case GlobalNid(nid) => ValidHandle(nid) && nid !in nids
  }

  predicate SideAccepted(nids: seq<u64>, edges: seq<EdgeInput>) {
    forall i :: 0 <= i < |edges| ==> EntryAccepted(nids, edges[i])
  }

  predicate RowAccepted(nids: seq<u64>, row: RowInput, csc: bool) {
    && Known(nids, row.node)
    && SideAccepted(nids, row.outgoing) && SideAccepted(nids, row.incoming)
    && (!csc ==> row.incoming == [])
  }

  predicate GroupAccepted(nids: seq<u64>, g: GroupInput, csc: bool) {
    && g.rows != []
    && (forall i, j :: 0 <= i < j < |g.rows| ==> g.rows[i].node != g.rows[j].node)
    && forall i :: 0 <= i < |g.rows| ==> RowAccepted(nids, g.rows[i], csc)
  }

  /** The entries of one direction in the order they were given. */
  function RowsEntries(rows: seq<RowInput>, d: Direction): seq<EdgeInput> {
    if rows == [] then [] else InputSide(rows[0], d) + RowsEntries(rows[1..], d)
  }

  function Entries(groups: seq<GroupInput>, d: Direction): seq<EdgeInput> {
    if groups == [] then [] else RowsEntries(groups[0].rows, d) + Entries(groups[1..], d)
  }

  predicate NoIdTwice(edges: seq<EdgeInput>) {
    forall i, j :: 0 <= i < j < |edges| ==> edges[i].edgeId != edges[j].edgeId
  }

  predicate WeightsAllOrNone(edges: seq<EdgeInput>) {
    forall i, j :: 0 <= i < |edges| && 0 <= j < |edges| ==> edges[i].weight.Some? == edges[j].weight.Some?
  }

  function TypesOf(edges: seq<EdgeInput>): set<u32> {
    set i | 0 <= i < |edges| :: edges[i].typeId
  }

  /** An edge between two local nodes. */
  datatype LocalEdge = LocalEdge(id: u64, source: int, target: int, typeId: u32, weight: Option<u32>)

  /** What an entry in the row of `node` says about a local edge: an outgoing entry leaves the node, an incoming
      one enters it. */
  predicate Says(node: u32, other: int, id: u64, typeId: u32, weight: Option<u32>, d: Direction, l: LocalEdge) {
    && l.id == id && l.typeId == typeId && l.weight == weight
    && (if d.Outgoing? then l.source == node && l.target == other else l.source == other && l.target == node)
  }

  predicate InputSays(
    groups: seq<GroupInput>, d: Direction, n: Namespace, l: LocalEdge, g: GroupInput, r: RowInput, e: EdgeInput) {
    && g in groups && g.namespace == n && r in g.rows && e in InputSide(r, d)
    && e.neighbor.LocalOrdinal? && Says(r.node, e.neighbor.ordinal, e.edgeId, e.typeId, e.weight, d, l)
  }

  ghost predicate Given(groups: seq<GroupInput>, d: Direction, n: Namespace, l: LocalEdge) {
    exists g, r, e :: InputSays(groups, d, n, l, g, r, e)
  }

  /** Both directions list the same local edges, namespace by namespace. */
  ghost predicate BothEnds(groups: seq<GroupInput>) {
    forall n, l :: Given(groups, Outgoing, n, l) <==> Given(groups, Incoming, n, l)
  }

  ghost predicate Acceptable(nids: seq<u64>, groups: seq<GroupInput>, csc: bool, useRemap: bool) {
    var outgoing, incoming := Entries(groups, Outgoing), Entries(groups, Incoming);
    && (forall i, j :: 0 <= i < j < |groups| ==> groups[i].namespace != groups[j].namespace)
    && (forall i :: 0 <= i < |groups| ==> GroupAccepted(nids, groups[i], csc))
    && NoIdTwice(outgoing) && NoIdTwice(incoming)
    && WeightsAllOrNone(outgoing + incoming)
    && (csc ==> BothEnds(groups))
    && |outgoing| < U32_LIMIT && |incoming| < U32_LIMIT
    && (useRemap ==> 0 < |TypesOf(outgoing + incoming)| <= 65536)
  }

  // ----- Entries, rows and groups are normalised exactly when they are accepted -----

  lemma {:induction false} EdgesAccepted(nids: seq<u64>, node: u32, edges: seq<EdgeInput>)
    ensures NormalizeEdges(nids, node, edges).Ok? <==> SideAccepted(nids, edges)
    ensures NormalizeEdges(nids, node, edges).Ok? ==> forall i :: 0 <= i < |edges| ==>
      NormalizeEdge(nids, node, edges[i]) == Ok(NormalizeEdges(nids, node, edges).value[i])
  {
    if edges != [] {
      EdgesAccepted(nids, node, edges[1..]);
      EdgeAccepted(nids, node, edges[0]);
      Split(edges, (e: EdgeInput) => EntryAccepted(nids, e));
    }
  }

  lemma {:induction false} EdgeAccepted(nids: seq<u64>, node: u32, e: EdgeInput)
    ensures NormalizeEdge(nids, node, e).Ok? <==> EntryAccepted(nids, e)
  {
  }

  lemma {:induction false} RowAcceptedExact(nids: seq<u64>, row: RowInput, csc: bool)
    ensures NormalizeRow(nids, row, csc).Ok? <==> RowAccepted(nids, row, csc)
  {
    hide SideAccepted, NormalizeEdges, Sort;
    EdgesAccepted(nids, row.node, row.outgoing);
    EdgesAccepted(nids, row.node, row.incoming);
  }

  lemma {:induction false} RowsAccepted(nids: seq<u64>, rows: seq<RowInput>, csc: bool)
    ensures NormalizeRows(nids, rows, csc).Ok? <==> forall i :: 0 <= i < |rows| ==> RowAccepted(nids, rows[i], csc)
    ensures NormalizeRows(nids, rows, csc).Ok? ==> forall i :: 0 <= i < |rows| ==>
      NormalizeRow(nids, rows[i], csc) == Ok(NormalizeRows(nids, rows, csc).value[i])
  {
    hide NormalizeRow, RowAccepted;
    if rows != [] {
      RowsAccepted(nids, rows[1..], csc);
      RowAcceptedExact(nids, rows[0], csc);
      Split(rows, (r: RowInput) => RowAccepted(nids, r, csc));
    }
  }

  lemma {:induction false} GroupAcceptedExact(nids: seq<u64>, g: GroupInput, csc: bool)
    ensures NormalizeGroup(nids, g, csc).Ok? <==> GroupAccepted(nids, g, csc)
  {
    hide NormalizeRows, RowAccepted, Sort, Ascending, Distinct;
    var key := (r: RowInput) => [r.node];
    RowsAccepted(nids, Sort(g.rows, key), csc);
    SortAll(g.rows, key, (r: RowInput) => RowAccepted(nids, r, csc));
    SortAscending(g.rows, key);
    DistinctPairs(g.rows, key);
    NodesPairs(g.rows);
  }

  lemma {:induction false} NodesPairs(rows: seq<RowInput>)
    ensures (forall i, j :: 0 <= i < j < |rows| ==> [rows[i].node] != [rows[j].node]) <==>
      forall i, j :: 0 <= i < j < |rows| ==> rows[i].node != rows[j].node
  {
    assert forall a: u32, b: u32 :: [a][0] == [b][0] <==> [a] == [b];
  }

  lemma {:induction false} GroupsAccepted(nids: seq<u64>, groups: seq<GroupInput>, csc: bool)
    ensures NormalizeGroups(nids, groups, csc).Ok? <==>
      forall i :: 0 <= i < |groups| ==> GroupAccepted(nids, groups[i], csc)
    ensures NormalizeGroups(nids, groups, csc).Ok? ==> forall i :: 0 <= i < |groups| ==>
      NormalizeGroup(nids, groups[i], csc) == Ok(NormalizeGroups(nids, groups, csc).value[i])
  {
    hide NormalizeGroup, GroupAccepted;
    if groups != [] {
      GroupsAccepted(nids, groups[1..], csc);
      GroupAcceptedExact(nids, groups[0], csc);
      Split(groups, (g: GroupInput) => GroupAccepted(nids, g, csc));
    }
  }

  // ----- What the entries say, as many times as they say it -----

  function InputFact(nids: seq<u64>, e: EdgeInput): EdgeFact {
    EdgeFact(TargetOf(nids, e.neighbor), e.edgeId, e.typeId, e.weight)
  }

  function InputFactList(nids: seq<u64>, edges: seq<EdgeInput>): (r: seq<EdgeFact>)
    ensures |r| == |edges| && forall i :: 0 <= i < |r| ==> r[i] == InputFact(nids, edges[i])
  {
    seq(|edges|, i requires 0 <= i < |edges| => InputFact(nids, edges[i]))
  }

  function FactList(edges: seq<Edge>): (r: seq<EdgeFact>)
    ensures |r| == |edges| && forall i :: 0 <= i < |r| ==> r[i] == FactOf(edges[i])
  {
    seq(|edges|, i requires 0 <= i < |edges| => FactOf(edges[i]))
  }

  lemma {:induction false} InputFactsListed(nids: seq<u64>, edges: seq<EdgeInput>)
    ensures InputFacts(nids, edges) == multiset(InputFactList(nids, edges))
  {
    if edges != [] {
      InputFactsListed(nids, edges[1..]);
      assert InputFactList(nids, edges) == [InputFact(nids, edges[0])] + InputFactList(nids, edges[1..]);
    }
  }

  lemma {:induction false} FactsListed(edges: seq<Edge>)
    ensures EdgeFacts(edges) == multiset(FactList(edges))
  {
    if edges != [] {
      FactsListed(edges[1..]);
      assert FactList(edges) == [FactOf(edges[0])] + FactList(edges[1..]);
    }
  }

  lemma {:induction false} InputFactsConcat(nids: seq<u64>, a: seq<EdgeInput>, b: seq<EdgeInput>)
    ensures InputFacts(nids, a + b) == InputFacts(nids, a) + InputFacts(nids, b)
  {
    hide InputFacts, InputFact;
    InputFactsListed(nids, a);
    InputFactsListed(nids, b);
    InputFactsListed(nids, a + b);
    assert InputFactList(nids, a + b) == InputFactList(nids, a) + InputFactList(nids, b);
  }

  lemma {:induction false} FactsConcat(a: seq<Edge>, b: seq<Edge>)
    ensures EdgeFacts(a + b) == EdgeFacts(a) + EdgeFacts(b)
  {
    hide EdgeFacts, FactOf;
    FactsListed(a);
    FactsListed(b);
    FactsListed(a + b);
    assert FactList(a + b) == FactList(a) + FactList(b);
  }

  function Sum<T>(items: seq<T>, facts: T -> multiset<EdgeFact>): multiset<EdgeFact> {
    if items == [] then multiset{} else facts(items[0]) + Sum(items[1..], facts)
  }

  lemma {:induction false} SumInsert<T>(x: T, sorted: seq<T>, key: T -> Key, facts: T -> multiset<EdgeFact>)
    ensures Sum(Insert(x, sorted, key), facts) == facts(x) + Sum(sorted, facts)
  {
    hide Less;
    var r := Insert(x, sorted, key);
    if sorted == [] || !Less(key(sorted[0]), key(x)) {
      assert r[1..] == sorted;
    } else {
      SumInsert(x, sorted[1..], key, facts);
      assert r[1..] == Insert(x, sorted[1..], key);
    }
  }

  /** A total over a list does not depend on its order. */
  lemma {:induction false} SumSort<T>(items: seq<T>, key: T -> Key, facts: T -> multiset<EdgeFact>)
    ensures Sum(Sort(items, key), facts) == Sum(items, facts)
  {
    if items != [] {
      SumSort(items[1..], key, facts);
      SumInsert(items[0], Sort(items[1..], key), key, facts);
    }
  }

  function RowFacts(nids: seq<u64>, d: Direction): RowInput -> multiset<EdgeFact> {
    (r: RowInput) => InputFacts(nids, InputSide(r, d))
  }

  function GroupFacts(nids: seq<u64>, d: Direction): GroupInput -> multiset<EdgeFact> {
    (g: GroupInput) => InputFacts(nids, RowsEntries(g.rows, d))
  }

  lemma {:induction false} RowsEntriesFacts(nids: seq<u64>, rows: seq<RowInput>, d: Direction)
    ensures InputFacts(nids, RowsEntries(rows, d)) == Sum(rows, RowFacts(nids, d))
  {
    hide InputFacts, InputSide;
    if rows == [] {
      InputFactsListed(nids, []);
    } else {
      RowsEntriesFacts(nids, rows[1..], d);
      InputFactsConcat(nids, InputSide(rows[0], d), RowsEntries(rows[1..], d));
    }
  }

  lemma {:induction false} EntriesFacts(nids: seq<u64>, groups: seq<GroupInput>, d: Direction)
    ensures InputFacts(nids, Entries(groups, d)) == Sum(groups, GroupFacts(nids, d))
  {
    hide InputFacts, RowsEntries;
    if groups == [] {
      InputFactsListed(nids, []);
    } else {
      EntriesFacts(nids, groups[1..], d);
      InputFactsConcat(nids, RowsEntries(groups[0].rows, d), Entries(groups[1..], d));
    }
  }

  /** The stored entries of rows carried from their inputs. */
  lemma {:induction false} RowsStored(nids: seq<u64>, inputs: seq<RowInput>, rows: seq<Row>, d: Direction)
    requires |inputs| == |rows| && forall i :: 0 <= i < |rows| ==> RowCarries(nids, inputs[i], rows[i])
    ensures EdgeFacts(Flat(Side(rows, d))) == Sum(inputs, RowFacts(nids, d))
  {
    hide EdgeFacts, InputFacts;
    if rows == [] {
      FactsListed([]);
    } else {
      RowsStored(nids, inputs[1..], rows[1..], d);
      var side := Side(rows, d);
      assert side[1..] == Side(rows[1..], d);
      FactsConcat(side[0], Flat(side[1..]));
      assert RowCarries(nids, inputs[0], rows[0]);
    }
  }

  lemma {:induction false} GroupStored(nids: seq<u64>, g: GroupInput, csc: bool, d: Direction)
    requires NormalizeGroup(nids, g, csc).Ok?
    ensures EdgeFacts(Flat(Side(NormalizeGroup(nids, g, csc).value.rows, d))) == GroupFacts(nids, d)(g)
  {
    hide NormalizeRows, RowCarries, EdgeFacts, InputFacts, Sort, Ascending, Sum;
    var key := (r: RowInput) => [r.node];
    var sorted := Sort(g.rows, key);
    RowsConserve(nids, sorted, csc);
    RowsStored(nids, sorted, NormalizeRows(nids, sorted, csc).value, d);
    SumSort(g.rows, key, RowFacts(nids, d));
    RowsEntriesFacts(nids, g.rows, d);
  }

  predicate Stores(nids: seq<u64>, g: GroupInput, stored: NamespaceGroup, d: Direction) {
    EdgeFacts(Flat(Side(stored.rows, d))) == GroupFacts(nids, d)(g)
  }

  lemma {:induction false} ListsStored(
    nids: seq<u64>, groups: seq<GroupInput>, stored: seq<NamespaceGroup>, d: Direction)
    requires |groups| == |stored| && forall i :: 0 <= i < |groups| ==> Stores(nids, groups[i], stored[i], d)
    ensures EdgeFacts(EdgesOf(stored, d)) == Sum(groups, GroupFacts(nids, d))
  {
    hide EdgeFacts, GroupFacts, Side;
    if groups == [] {
      FactsListed([]);
    } else {
      ListsStored(nids, groups[1..], stored[1..], d);
      var lists := GroupEdges(stored, d);
      assert lists[1..] == GroupEdges(stored[1..], d);
      FactsConcat(lists[0], Flat(lists[1..]));
      assert Stores(nids, groups[0], stored[0], d);
    }
  }

  lemma {:induction false} GroupsStored(nids: seq<u64>, groups: seq<GroupInput>, csc: bool, d: Direction)
    requires NormalizeGroups(nids, groups, csc).Ok?
    ensures EdgeFacts(EdgesOf(NormalizeGroups(nids, groups, csc).value, d)) == Sum(groups, GroupFacts(nids, d))
  {
    hide NormalizeGroup, NormalizeGroups, EdgeFacts, GroupFacts, GroupAccepted, EdgesOf;
    var normal := NormalizeGroups(nids, groups, csc).value;
    GroupsAccepted(nids, groups, csc);
    forall i | 0 <= i < |groups| ensures Stores(nids, groups[i], normal[i], d) {
      GroupStored(nids, groups[i], csc, d);
    }
    ListsStored(nids, groups, normal, d);
  }

  /** The stored entries of a direction say what the given entries say. */
  lemma {:induction false} StoredFacts(
    nids: seq<u64>, groups: seq<GroupInput>, key: GroupInput -> Key, csc: bool, d: Direction)
    requires NormalizeGroups(nids, Sort(groups, key), csc).Ok?
    ensures multiset(FactList(EdgesOf(NormalizeGroups(nids, Sort(groups, key), csc).value, d)))
      == multiset(InputFactList(nids, Entries(groups, d)))
  {
    hide NormalizeGroups, EdgesOf, EdgeFacts, InputFacts, Entries, Sum, Sort, FactList, InputFactList;
    GroupsStored(nids, Sort(groups, key), csc, d);
    SumSort(groups, key, GroupFacts(nids, d));
    EntriesFacts(nids, groups, d);
    FactsListed(EdgesOf(NormalizeGroups(nids, Sort(groups, key), csc).value, d));
    InputFactsListed(nids, Entries(groups, d));
  }

  // ----- Whatever is said in another order is the same list of facts -----

  predicate FactIdsDistinct(facts: seq<EdgeFact>) {
    forall i, j :: 0 <= i < j < |facts| ==> facts[i].edgeId != facts[j].edgeId
  }

  lemma {:induction false} DistinctAnyOrder(a: seq<EdgeFact>, b: seq<EdgeFact>)
    requires multiset(a) == multiset(b) && FactIdsDistinct(a)
    ensures FactIdsDistinct(b)
  {
    forall i, j | 0 <= i < j < |b| ensures b[i].edgeId != b[j].edgeId {
      if b[i] == b[j] {
        CountedTwice(b, i, j);
        var k, l := TwiceCounted(a, b[i]);
      } else {
        var k := SameMember(b, a, i);
        var l := SameMember(b, a, j);
      }
    }
  }

  /** Stored and given entries that say the same have the same length, repeated ids and types. */
  lemma {:induction false} SameStanding(nids: seq<u64>, edges: seq<Edge>, inputs: seq<EdgeInput>)
    requires multiset(FactList(edges)) == multiset(InputFactList(nids, inputs))
    ensures |edges| == |inputs|
    ensures IdsDistinct(edges) <==> NoIdTwice(inputs)
    ensures forall t :: UsesType(edges, t) <==> t in TypesOf(inputs)
    ensures WeightsTotal(edges) <==> WeightsAllOrNone(inputs)
  {
    var a, b := FactList(edges), InputFactList(nids, inputs);
    SameLength(a, b);
    SameIds(nids, edges, inputs);
    SameTypes(nids, edges, inputs);
    SameWeights(nids, edges, inputs);
  }

  lemma {:induction false} SameIds(nids: seq<u64>, edges: seq<Edge>, inputs: seq<EdgeInput>)
    requires multiset(FactList(edges)) == multiset(InputFactList(nids, inputs))
    ensures IdsDistinct(edges) <==> NoIdTwice(inputs)
  {
    var a, b := FactList(edges), InputFactList(nids, inputs);
    if FactIdsDistinct(a) {
      DistinctAnyOrder(a, b);
    }
    if FactIdsDistinct(b) {
      DistinctAnyOrder(b, a);
    }
    assert IdsDistinct(edges) <==> FactIdsDistinct(a) by {
      assert FactIdsDistinct(a) ==> forall i, j :: 0 <= i < j < |edges| ==> a[i].edgeId != a[j].edgeId;
    }
    assert NoIdTwice(inputs) <==> FactIdsDistinct(b) by {
      assert FactIdsDistinct(b) ==> forall i, j :: 0 <= i < j < |inputs| ==> b[i].edgeId != b[j].edgeId;
    }
  }

  lemma {:induction false} SameTypes(nids: seq<u64>, edges: seq<Edge>, inputs: seq<EdgeInput>)
    requires multiset(FactList(edges)) == multiset(InputFactList(nids, inputs))
    ensures forall t :: UsesType(edges, t) <==> t in TypesOf(inputs)
  {
    var a, b := FactList(edges), InputFactList(nids, inputs);
    forall t ensures UsesType(edges, t) <==> t in TypesOf(inputs) {
      if UsesType(edges, t) {
        var i :| 0 <= i < |edges| && edges[i].typeId == t;
        var j := SameMember(a, b, i);
        assert inputs[j].typeId == t;
      }
      if t in TypesOf(inputs) {
        var j :| 0 <= j < |inputs| && inputs[j].typeId == t;
        var i := SameMember(b, a, j);
        assert edges[i].typeId == t;
      }
    }
  }

  lemma {:induction false} SameWeights(nids: seq<u64>, edges: seq<Edge>, inputs: seq<EdgeInput>)
    requires multiset(FactList(edges)) == multiset(InputFactList(nids, inputs))
    ensures WeightsTotal(edges) <==> WeightsAllOrNone(inputs)
  {
    var a, b := FactList(edges), InputFactList(nids, inputs);
    if WeightsTotal(edges) {
      forall i, j | 0 <= i < |inputs| && 0 <= j < |inputs| ensures inputs[i].weight.Some? == inputs[j].weight.Some? {
        var k := SameMember(b, a, i);
        var l := SameMember(b, a, j);
        assert edges[k].weight == inputs[i].weight && edges[l].weight == inputs[j].weight;
      }
    }
    if WeightsAllOrNone(inputs) {
      forall i | 0 <= i < |edges| ensures edges[i].weight.Some? == Weighted(edges) {
        var k := SameMember(a, b, i);
        var l := SameMember(a, b, 0);
        assert edges[i].weight == inputs[k].weight && edges[0].weight == inputs[l].weight;
      }
    }
  }

  /** The remap table has one place for each type in use. */
  lemma {:induction false} TypeCount(edges: seq<Edge>, inputs: seq<EdgeInput>)
    requires forall t :: UsesType(edges, t) <==> t in TypesOf(inputs)
    ensures |TypeList(edges)| == |TypesOf(inputs)|
  {
    hide TypeList, UsesType;
    TypeListFacts(edges);
    var types := TypeList(edges);
    TypesCounted(types);
    var all := set i | 0 <= i < |types| :: types[i];
    assert forall t :: t in all <==> t in types;
    assert all == TypesOf(inputs);
  }

  // ----- Local edges given and stored -----

  function RowSide(row: Row, d: Direction): seq<Edge> {
    if d.Outgoing? then row.outgoing else row.incoming
  }

  predicate StoredSays(
    groups: seq<NamespaceGroup>, d: Direction, n: Namespace, l: LocalEdge, g: NamespaceGroup, r: Row, e: Edge) {
    && g in groups && g.namespace == n && r in g.rows && e in RowSide(r, d)
    && e.stored.LocalDelta? && Says(r.node, r.node + e.stored.delta, e.edgeId, e.typeId, e.weight, d, l)
  }

  ghost predicate Held(groups: seq<NamespaceGroup>, d: Direction, n: Namespace, l: LocalEdge) {
    exists g, r, e :: StoredSays(groups, d, n, l, g, r, e)
  }

  /** A stored row has an entry exactly for each entry given. */
  lemma {:induction false} RowEntries(nids: seq<u64>, input: RowInput, csc: bool, d: Direction)
    requires NormalizeRow(nids, input, csc).Ok?
    ensures var row := NormalizeRow(nids, input, csc).value;
      && row.node == input.node
      && (forall e :: e in InputSide(input, d) ==>
            exists f :: f in RowSide(row, d) && NormalizeEdge(nids, input.node, e) == Ok(f))
      && (forall f :: f in RowSide(row, d) ==>
            exists e :: e in InputSide(input, d) && NormalizeEdge(nids, input.node, e) == Ok(f))
  {
    hide NormalizeEdges, NormalizeEdge, Sort, SideAccepted;
    var row, side := NormalizeRow(nids, input, csc).value, InputSide(input, d);
    EdgesAccepted(nids, input.node, side);
    var normal := NormalizeEdges(nids, input.node, side).value;
    assert RowSide(row, d) == Sort(normal, EdgeKey);
    forall e | e in side ensures exists f :: f in RowSide(row, d) && NormalizeEdge(nids, input.node, e) == Ok(f) {
      var i :| 0 <= i < |side| && side[i] == e;
      SortMember(normal, EdgeKey, normal[i]);
      assert NormalizeEdge(nids, input.node, e) == Ok(normal[i]);
    }
    forall f | f in RowSide(row, d)
      ensures exists e :: e in side && NormalizeEdge(nids, input.node, e) == Ok(f)
    {
      SortMember(normal, EdgeKey, f);
      var i :| 0 <= i < |normal| && normal[i] == f;
      assert NormalizeEdge(nids, input.node, side[i]) == Ok(f);
    }
  }

  lemma {:induction false} EntrySays(nids: seq<u64>, node: u32, e: EdgeInput, f: Edge, d: Direction, l: LocalEdge)
    requires NormalizeEdge(nids, node, e) == Ok(f)
    ensures e.neighbor.LocalOrdinal? && Says(node, e.neighbor.ordinal, e.edgeId, e.typeId, e.weight, d, l) <==>
      f.stored.LocalDelta? && Says(node, node + f.stored.delta, f.edgeId, f.typeId, f.weight, d, l)
  {
  }

  /** A stored group has a row for each row given, and no other. */
  lemma {:induction false} GroupRows(nids: seq<u64>, input: GroupInput, csc: bool)
    requires NormalizeGroup(nids, input, csc).Ok?
    ensures var g := NormalizeGroup(nids, input, csc).value;
      && g.namespace == input.namespace
      && (forall r :: r in input.rows ==> exists s :: s in g.rows && NormalizeRow(nids, r, csc) == Ok(s))
      && (forall s :: s in g.rows ==> exists r :: r in input.rows && NormalizeRow(nids, r, csc) == Ok(s))
  {
    hide NormalizeRows, NormalizeRow, Sort, Ascending, RowAccepted;
    var key := (r: RowInput) => [r.node];
    var sorted := Sort(input.rows, key);
    RowsAccepted(nids, sorted, csc);
    var rows := NormalizeRows(nids, sorted, csc).value;
    forall r | r in input.rows ensures exists s :: s in rows && NormalizeRow(nids, r, csc) == Ok(s) {
      SortMember(input.rows, key, r);
      var i :| 0 <= i < |sorted| && sorted[i] == r;
      assert NormalizeRow(nids, r, csc) == Ok(rows[i]);
    }
    forall s | s in rows ensures exists r :: r in input.rows && NormalizeRow(nids, r, csc) == Ok(s) {
      var i :| 0 <= i < |rows| && rows[i] == s;
      SortMember(input.rows, key, sorted[i]);
      assert NormalizeRow(nids, sorted[i], csc) == Ok(s);
    }
  }

  lemma {:induction false} GroupsCarry(nids: seq<u64>, inputs: seq<GroupInput>, key: GroupInput -> Key, csc: bool)
    requires NormalizeGroups(nids, Sort(inputs, key), csc).Ok?
    ensures var groups := NormalizeGroups(nids, Sort(inputs, key), csc).value;
      && (forall g :: g in inputs ==> exists h :: h in groups && NormalizeGroup(nids, g, csc) == Ok(h))
      && (forall h :: h in groups ==> exists g :: g in inputs && NormalizeGroup(nids, g, csc) == Ok(h))
  {
    hide NormalizeGroups, NormalizeGroup, Sort, GroupAccepted;
    var sorted := Sort(inputs, key);
    GroupsAccepted(nids, sorted, csc);
    var groups := NormalizeGroups(nids, sorted, csc).value;
    forall g | g in inputs ensures exists h :: h in groups && NormalizeGroup(nids, g, csc) == Ok(h) {
      SortMember(inputs, key, g);
      var i :| 0 <= i < |sorted| && sorted[i] == g;
      assert NormalizeGroup(nids, g, csc) == Ok(groups[i]);
    }
    forall h | h in groups ensures exists g :: g in inputs && NormalizeGroup(nids, g, csc) == Ok(h) {
      var i :| 0 <= i < |groups| && groups[i] == h;
      SortMember(inputs, key, sorted[i]);
      assert NormalizeGroup(nids, sorted[i], csc) == Ok(h);
    }
  }

  /** The local edges stored in a direction are the local edges given. */
  lemma {:induction false} HeldGiven(
    nids: seq<u64>, inputs: seq<GroupInput>, key: GroupInput -> Key, csc: bool, d: Direction, n: Namespace,
    l: LocalEdge)
    requires NormalizeGroups(nids, Sort(inputs, key), csc).Ok?
    ensures Held(NormalizeGroups(nids, Sort(inputs, key), csc).value, d, n, l) <==> Given(inputs, d, n, l)
  {
    hide NormalizeGroups, NormalizeGroup, NormalizeRow, NormalizeEdge, Sort, Says, RowSide, InputSide;
    var groups := NormalizeGroups(nids, Sort(inputs, key), csc).value;
    GroupsCarry(nids, inputs, key, csc);
    if Given(inputs, d, n, l) {
      var g, r, e :| InputSays(inputs, d, n, l, g, r, e);
      var h :| h in groups && NormalizeGroup(nids, g, csc) == Ok(h);
      GroupRows(nids, g, csc);
      var s :| s in h.rows && NormalizeRow(nids, r, csc) == Ok(s);
      RowEntries(nids, r, csc, d);
      var f :| f in RowSide(s, d) && NormalizeEdge(nids, r.node, e) == Ok(f);
      EntrySays(nids, r.node, e, f, d, l);
      assert StoredSays(groups, d, n, l, h, s, f);
    }
    if Held(groups, d, n, l) {
      var h, s, f :| StoredSays(groups, d, n, l, h, s, f);
      var g :| g in inputs && NormalizeGroup(nids, g, csc) == Ok(h);
      GroupRows(nids, g, csc);
      var r :| r in g.rows && NormalizeRow(nids, r, csc) == Ok(s);
      RowEntries(nids, r, csc, d);
      var e :| e in InputSide(r, d) && NormalizeEdge(nids, r.node, e) == Ok(f);
      EntrySays(nids, r.node, e, f, d, l);
      assert InputSays(inputs, d, n, l, g, r, e);
    }
  }

  predicate NamespacesApart(groups: seq<NamespaceGroup>) {
    forall i, j :: 0 <= i < j < |groups| ==> groups[i].namespace != groups[j].namespace
  }

  function MirrorAt(g: nat, l: LocalEdge): Mirror {
    Mirror(g, l.source, l.target, l.typeId, l.weight)
  }

  /** With distinct namespaces the group number of an edge tells its namespace. */
  lemma {:induction false} HeldEntry(groups: seq<NamespaceGroup>, d: Direction, g: nat, l: LocalEdge)
    requires g < |groups| && NamespacesApart(groups)
    ensures Held(groups, d, groups[g].namespace, l) <==> HasEntry(groups, d, l.id, MirrorAt(g, l))
  {
    var n, m := groups[g].namespace, MirrorAt(g, l);
    if Held(groups, d, n, l) {
      var h, r, e :| StoredSays(groups, d, n, l, h, r, e);
      var k :| 0 <= k < |groups| && groups[k] == h;
      assert k == g;
      var j :| 0 <= j < |h.rows| && h.rows[j] == r;
      var i :| 0 <= i < |RowSide(r, d)| && RowSide(r, d)[i] == e;
      assert EntryIs(groups, d, g, j, i, l.id, m);
    }
    if HasEntry(groups, d, l.id, m) {
      var k: nat, r: nat, i: nat :| EntryIs(groups, d, k, r, i, l.id, m);
      var row := groups[g].rows[r];
      assert StoredSays(groups, d, n, l, groups[g], row, RowSide(row, d)[i]);
    }
  }

  /** An entry of a group that is not there is held by neither direction. */
  lemma {:induction false} EntryInside(groups: seq<NamespaceGroup>, d: Direction, id: u64, m: Mirror)
    requires HasEntry(groups, d, id, m)
    ensures m.group < |groups|
  {
  }

  lemma {:induction false} HeldInside(groups: seq<NamespaceGroup>, d: Direction, n: Namespace, l: LocalEdge)
    returns (g: nat)
    requires Held(groups, d, n, l)
    ensures g < |groups| && groups[g].namespace == n
  {
    var h, r, e :| StoredSays(groups, d, n, l, h, r, e);
    g :| 0 <= g < |groups| && groups[g] == h;
  }

  ghost predicate HeldBothEnds(groups: seq<NamespaceGroup>) {
    forall n, l :: Held(groups, Outgoing, n, l) <==> Held(groups, Incoming, n, l)
  }

  lemma {:induction false} EntriesFromHeld(groups: seq<NamespaceGroup>, id: u64, m: Mirror)
    requires NamespacesApart(groups) && HeldBothEnds(groups)
    ensures HasEntry(groups, Outgoing, id, m) <==> HasEntry(groups, Incoming, id, m)
  {
    hide Held, HasEntry, NamespacesApart;
    var l := LocalEdge(id, m.source, m.target, m.typeId, m.weight);
    if m.group < |groups| {
      HeldEntry(groups, Outgoing, m.group, l);
      HeldEntry(groups, Incoming, m.group, l);
      assert MirrorAt(m.group, l) == m;
    } else {
      if HasEntry(groups, Outgoing, id, m) {
        EntryInside(groups, Outgoing, id, m);
      }
      if HasEntry(groups, Incoming, id, m) {
        EntryInside(groups, Incoming, id, m);
      }
    }
  }

  lemma {:induction false} HeldFromEntries(
    groups: seq<NamespaceGroup>, d: Direction, e: Direction, n: Namespace, l: LocalEdge)
    requires NamespacesApart(groups)
    requires forall id, m :: HasEntry(groups, d, id, m) ==> HasEntry(groups, e, id, m)
    requires Held(groups, d, n, l)
    ensures Held(groups, e, n, l)
  {
    hide Held, HasEntry, NamespacesApart;
    var g := HeldInside(groups, d, n, l);
    HeldEntry(groups, d, g, l);
    HeldEntry(groups, e, g, l);
  }

  /** The mirror test passes exactly when both directions store the same local edges. */
  lemma {:induction false} MirrorsHeld(groups: seq<NamespaceGroup>)
    requires NamespacesApart(groups)
    requires IdsDistinct(EdgesOf(groups, Outgoing)) && IdsDistinct(EdgesOf(groups, Incoming))
    ensures MirrorsAgree(groups) <==> HeldBothEnds(groups)
  {
    hide Held, HasEntry, NamespacesApart, IdsDistinct, EdgesOf, MirrorsAgree;
    MirrorsExact(groups);
    if HeldBothEnds(groups) {
      forall id, m ensures HasEntry(groups, Outgoing, id, m) <==> HasEntry(groups, Incoming, id, m) {
        EntriesFromHeld(groups, id, m);
      }
    }
    if MirrorsAgree(groups) {
      forall n, l ensures Held(groups, Outgoing, n, l) <==> Held(groups, Incoming, n, l) {
        if Held(groups, Outgoing, n, l) {
          HeldFromEntries(groups, Outgoing, Incoming, n, l);
        }
        if Held(groups, Incoming, n, l) {
          HeldFromEntries(groups, Incoming, Outgoing, n, l);
        }
      }
    }
  }

  // ----- The builder -----

  lemma {:induction false} NamespaceKeyTells(a: Namespace, b: Namespace)
    ensures NamespaceKey(a) == NamespaceKey(b) <==> a == b
  {
    if NamespaceKey(a) == NamespaceKey(b) {
      assert NamespaceKey(a)[0] == NamespaceKey(b)[0];
      assert NamespaceKey(a)[1..] == NamespaceKey(b)[1..];
      assert a.Tenant? ==> NamespaceKey(a)[1..] == a.name;
      assert b.Tenant? ==> NamespaceKey(b)[1..] == b.name;
    }
  }

  function GivenKey(): GroupInput -> Key {
    (g: GroupInput) => NamespaceKey(g.namespace)
  }

  /** The sorted groups pass the order test exactly when no namespace is given twice. */
  lemma {:induction false} NamespacesOnce(groups: seq<GroupInput>)
    ensures Ascending(Sort(groups, GivenKey()), GivenKey()) <==>
      forall i, j :: 0 <= i < j < |groups| ==> groups[i].namespace != groups[j].namespace
  {
    hide Ascending, Sort, Distinct, NamespaceKey;
    var key := GivenKey();
    SortAscending(groups, key);
    DistinctPairs(groups, key);
    forall i, j | 0 <= i < j < |groups|
      ensures key(groups[i]) != key(groups[j]) <==> groups[i].namespace != groups[j].namespace
    {
      NamespaceKeyTells(groups[i].namespace, groups[j].namespace);
    }
  }

  lemma {:induction false} SortedApart(inputs: seq<GroupInput>, groups: seq<NamespaceGroup>)
    requires |inputs| == |groups| && forall i :: 0 <= i < |groups| ==> groups[i].namespace == inputs[i].namespace
    requires Ascending(inputs, GivenKey())
    ensures NamespacesApart(groups)
  {
    hide Ascending, NamespaceKey;
    forall i, j | 0 <= i < j < |groups| ensures groups[i].namespace != groups[j].namespace {
      AscendingPairs(inputs, GivenKey(), i, j);
      LessIrreflexive(NamespaceKey(groups[i].namespace));
    }
  }

  lemma {:induction false} LessIrreflexive(k: Key)
    ensures !Less(k, k)
  {
    LessTotal(k, k);
  }

  /** The checks over all entries pass exactly when the given entries meet their part of the condition. */
  lemma {:induction false} AdmissibleExact(nids: seq<u64>, groups: seq<GroupInput>, csc: bool)
    requires Ascending(Sort(groups, GivenKey()), GivenKey())
    requires NormalizeGroups(nids, Sort(groups, GivenKey()), csc).Ok?
    ensures var outgoing, incoming := Entries(groups, Outgoing), Entries(groups, Incoming);
      Admissible(NormalizeGroups(nids, Sort(groups, GivenKey()), csc).value, csc) <==>
        && NoIdTwice(outgoing) && NoIdTwice(incoming)
        && WeightsAllOrNone(outgoing + incoming)
        && (csc ==> BothEnds(groups))
        && |outgoing| < U32_LIMIT && |incoming| < U32_LIMIT
    ensures |TypeList(AllEdges(NormalizeGroups(nids, Sort(groups, GivenKey()), csc).value))| ==
      |TypesOf(Entries(groups, Outgoing) + Entries(groups, Incoming))|
  {
    hide NormalizeGroups, Sort, Ascending, EdgesOf, Entries, IdsDistinct, NoIdTwice, WeightsTotal, WeightsAllOrNone,
      Held, Given, MirrorsAgree, TypeList, UsesType, TypesOf, FactList, InputFactList, NamespacesApart, GivenKey;
    var sorted := Sort(groups, GivenKey());
    var normal := NormalizeGroups(nids, sorted, csc).value;
    var outgoing, incoming := Entries(groups, Outgoing), Entries(groups, Incoming);
    StoredFacts(nids, groups, GivenKey(), csc, Outgoing);
    StoredFacts(nids, groups, GivenKey(), csc, Incoming);
    SameStanding(nids, EdgesOf(normal, Outgoing), outgoing);
    SameStanding(nids, EdgesOf(normal, Incoming), incoming);
    FactListsJoin(nids, EdgesOf(normal, Outgoing), outgoing, EdgesOf(normal, Incoming), incoming);
    SameStanding(nids, AllEdges(normal), outgoing + incoming);
    TypeCount(AllEdges(normal), outgoing + incoming);
    SortedApart(sorted, normal);
    forall d, n, l ensures Held(normal, d, n, l) <==> Given(groups, d, n, l) {
      HeldGiven(nids, groups, GivenKey(), csc, d, n, l);
    }
    if NoIdTwice(outgoing) && NoIdTwice(incoming) {
      MirrorsHeld(normal);
    }
  }

  lemma {:induction false} FactListsJoin(
    nids: seq<u64>, a: seq<Edge>, b: seq<EdgeInput>, c: seq<Edge>, e: seq<EdgeInput>)
    requires multiset(FactList(a)) == multiset(InputFactList(nids, b))
    requires multiset(FactList(c)) == multiset(InputFactList(nids, e))
    ensures multiset(FactList(a + c)) == multiset(InputFactList(nids, b + e))
  {
    hide FactOf, InputFact;
    assert FactList(a + c) == FactList(a) + FactList(c);
    assert InputFactList(nids, b + e) == InputFactList(nids, b) + InputFactList(nids, e);
  }

  /** The builder accepts exactly the acceptable inputs. */
  lemma {:induction false} BuildAccepts(nids: seq<u64>, groups: seq<GroupInput>, csc: bool, useRemap: bool)
    ensures Build(nids, groups, csc, useRemap).Ok? <==> Acceptable(nids, groups, csc, useRemap)
  {
    hide NormalizeGroups, Sort, Ascending, Admissible, Entries, NoIdTwice, WeightsAllOrNone, BothEnds, TypeList,
      AllEdges, TypesOf, GroupAccepted, Weighted, NamespaceKey;
    var key := GivenKey();
    assert key == (g: GroupInput) => NamespaceKey(g.namespace);
    var sorted := Sort(groups, key);
    NamespacesOnce(groups);
    GroupsAccepted(nids, sorted, csc);
    SortAll(groups, key, (g: GroupInput) => GroupAccepted(nids, g, csc));
    if Ascending(sorted, key) && NormalizeGroups(nids, sorted, csc).Ok? {
      AdmissibleExact(nids, groups, csc);
    }
  }

  /** What is built holds exactly the local edges given, each in its namespace, from its source to its target. */
  lemma {:induction false} BuildKeepsEdges(
    nids: seq<u64>, groups: seq<GroupInput>, csc: bool, useRemap: bool, a: Adjacency, d: Direction, n: Namespace,
    l: LocalEdge)
    requires Build(nids, groups, csc, useRemap) == Ok(a)
    ensures Held(a.groups, d, n, l) <==> Given(groups, d, n, l)
  {
    hide NormalizeGroups, Sort, Ascending, Admissible, TypeList, AllEdges, Weighted, NamespaceKey, Held, Given;
    HeldGiven(nids, groups, (g: GroupInput) => NamespaceKey(g.namespace), csc, d, n, l);
  }
}
