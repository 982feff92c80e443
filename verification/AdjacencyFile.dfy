/** The adjacency file `edge.gdx` (`write` and `open` in `graph_edge.rs`):
    every column of every group in its own grouped section of one artifact. */
module AdjacencyFile {
  import opened Wrappers
  import opened Bytes
  import opened Ordering
  import opened GroupedSections
  import opened Namespaces
  import opened EdgeTuples
  import opened EdgeColumns
  import opened EdgeOverflow
  import opened EdgeGroups
  import opened AdjacencyBuilder
  import Artifact

  const TYPE_REMAP: u32 := 1
  const NAMESPACE_INDEX: u32 := 2
  const NODE_ORDS: u32 := 3
  const OUT_BASE: u32 := 4
  const IN_BASE: u32 := 9
  const OVERFLOW: u32 := 14

  /** Sections 4 to 8 hold the outgoing columns and 9 to 13 the incoming ones, in the same order. */
  const SPEC: Artifact.Spec :=
    Artifact.Spec([71, 65, 85, 83, 69, 71, 48, 51], 15, [2, 3, 4, 5, 6, 7], [1, 8, 9, 10, 11, 12, 13, 14],
      0xFFFF_FFFF_FFFF_FFFF)

  // ----- The writer -----

  function EncodeGroups(groups: seq<NamespaceGroup>, csc: bool, l: Layout): (r: Result<seq<GroupFrames>>)
    ensures r.Ok? ==> |r.value| == |groups|
    ensures r.Ok? ==> forall i :: 0 <= i < |groups| ==> EncodeGroup(groups[i].rows, csc, l) == Ok(r.value[i])
  {
    if groups == [] then Ok([])
    else
      var frames :- EncodeGroup(groups[0].rows, csc, l);
      var rest :- EncodeGroups(groups[1..], csc, l);
      Ok([frames] + rest)
  }

  function NodeGroups(fs: seq<GroupFrames>): (r: seq<Group>)
    ensures |r| == |fs| && forall i :: 0 <= i < |r| ==> r[i] == fs[i].nodes
  {
    seq(|fs|, i requires 0 <= i < |fs| => fs[i].nodes)
  }

  function OutColumns(fs: seq<GroupFrames>): (r: seq<Columns>)
    ensures |r| == |fs| && forall i :: 0 <= i < |r| ==> r[i] == fs[i].outgoing
  {
    seq(|fs|, i requires 0 <= i < |fs| => fs[i].outgoing)
  }

  predicate IncomingPresent(fs: seq<GroupFrames>) {
    forall i :: 0 <= i < |fs| ==> fs[i].incoming.Some?
  }

  function InColumns(fs: seq<GroupFrames>): (r: seq<Columns>)
    requires IncomingPresent(fs)
    ensures |r| == |fs| && forall i :: 0 <= i < |r| ==> r[i] == fs[i].incoming.value
  {
    seq(|fs|, i requires 0 <= i < |fs| => fs[i].incoming.value)
  }

  predicate ChainCountsFit(fs: seq<GroupFrames>) {
    forall i :: 0 <= i < |fs| ==> fs[i].chainCount < U64_LIMIT
  }

  function OverflowGroups(fs: seq<GroupFrames>): (r: seq<Group>)
    requires ChainCountsFit(fs)
    ensures |r| == |fs| && forall i :: 0 <= i < |r| ==> r[i] == Group(fs[i].chainCount, fs[i].overflow)
  {
    seq(|fs|, i requires 0 <= i < |fs| => Group(fs[i].chainCount, fs[i].overflow))
  }

  /** One column of every group. */
  function Picked(cs: seq<Columns>, pick: Columns -> Group): (r: seq<Group>)
    ensures |r| == |cs| && forall i :: 0 <= i < |r| ==> r[i] == pick(cs[i])
  {
    seq(|cs|, i requires 0 <= i < |cs| => pick(cs[i]))
  }

  function WeightGroup(c: Columns): Group {
    if c.weights.Some? then c.weights.value else Group(0, [])
  }

  /** A grouped section to be written. */
  datatype Plan = Plan(id: u32, width: Width, groups: seq<Group>)

  /** The section a plan became: its element count is the sum over its groups. */
  predicate Planned(p: Plan, s: Artifact.Section) {
    && s.id == p.id
    && s.elemCount == Total(p.groups)
    && EncodeGroupedSection(p.width, p.groups) == Ok(s.content)
  }

  function EncodePlans(plans: seq<Plan>): (r: Result<seq<Artifact.Section>>)
    ensures r.Ok? ==> |r.value| == |plans| && forall i :: 0 <= i < |plans| ==> Planned(plans[i], r.value[i])
  {
    if plans == [] then Ok([])
    else
      var content :- EncodeGroupedSection(plans[0].width, plans[0].groups);
      var rest :- EncodePlans(plans[1..]);
      Ok([Artifact.Section(plans[0].id, Total(plans[0].groups), content)] + rest)
  }

  function DirectionPlans(base: u32, cs: seq<Columns>, l: Layout): seq<Plan>
    requires base <= 100
  {
    [Plan(base, WidthU64, Picked(cs, (c: Columns) => c.offsets)),
     Plan(base + 1, WidthTaggedNeighbor, Picked(cs, (c: Columns) => c.neighbors)),
     Plan(base + 2, WidthU64, Picked(cs, (c: Columns) => c.edgeIds)),
     Plan(base + 3, l.TypeWidthCode(), Picked(cs, (c: Columns) => c.types))]
    + (if l.weighted then [Plan(base + 4, WidthF32, Picked(cs, WeightGroup))] else [])
  }

  function PlansOf(fs: seq<GroupFrames>, csc: bool, l: Layout): seq<Plan>
    requires ChainCountsFit(fs) && (csc ==> IncomingPresent(fs))
  {
    [Plan(NODE_ORDS, WidthU32, NodeGroups(fs))]
    + DirectionPlans(OUT_BASE, OutColumns(fs), l)
    + (if csc then DirectionPlans(IN_BASE, InColumns(fs), l) else [])
    + (if HasChains(fs) then [Plan(OVERFLOW, WidthOverflowChain, OverflowGroups(fs))] else [])
  }

  function NamespaceList(groups: seq<NamespaceGroup>): (r: Result<seq<NamespaceRows>>)
    ensures r.Ok? ==> |r.value| == |groups|
    ensures r.Ok? ==> forall i :: 0 <= i < |groups| ==>
      && r.value[i].namespace == groups[i].namespace
      && r.value[i].rowCount == |groups[i].rows|
  {
    if groups == [] then Ok([])
    else if |groups[0].rows| >= U32_LIMIT then Err
    else
      var rest :- NamespaceList(groups[1..]);
      Ok([NamespaceRows(groups[0].namespace, |groups[0].rows|)] + rest)
  }

  predicate HasChains(fs: seq<GroupFrames>) {
    exists i :: 0 <= i < |fs| && fs[i].chainCount > 0
  }

  function RemapSections(l: Layout): seq<Artifact.Section>
    requires l.remap.Some? ==> |l.remap.value| < U64_LIMIT
  {
    match l.remap
    case Some(types) => [Artifact.Section(TYPE_REMAP, |types|, PutWords(types, 4))]
    case None => []
  }

  function Flags(csc: bool, overflow: bool, l: Layout): u32 {
    (if csc then 1 else 0) + (if overflow then 2 else 0) + (if l.weighted then 4 else 0)
      + (if l.remap.Some? then 8 else 0)
  }

  /** Every grouped section starts on a chunk boundary. */
  function ChunkAligned(plans: seq<Plan>): (r: seq<(u32, nat)>)
    ensures |r| == |plans| && forall i :: 0 <= i < |r| ==> r[i] == (plans[i].id, 65536)
  {
    seq(|plans|, i requires 0 <= i < |plans| => (plans[i].id, 65536))
  }

  function IndexSection(groups: seq<NamespaceGroup>): Result<Artifact.Section> {
    var namespaces :- NamespaceList(groups);
    var index :- EncodeNamespaceIndex(namespaces);
    :- Need(|groups| < U64_LIMIT);
    Ok(Artifact.Section(NAMESPACE_INDEX, |groups|, index))
  }

  function WriteSections(a: Adjacency, fs: seq<GroupFrames>, plans: seq<Plan>, crc: Artifact.Crc): Result<bytes> {
    if a.layout.remap.Some? && |a.layout.remap.value| >= U64_LIMIT then Err
    else
      var index :- IndexSection(a.groups);
      var grouped :- EncodePlans(plans);
      Artifact.EncodeWithAlignments(SPEC, crc, Flags(a.csc, HasChains(fs), a.layout),
        RemapSections(a.layout) + [index] + grouped, ChunkAligned(plans))
  }

  function Write(a: Adjacency, crc: Artifact.Crc): Result<bytes> {
    var fs :- EncodeGroups(a.groups, a.csc, a.layout);
    if ChainCountsFit(fs) && (a.csc ==> IncomingPresent(fs))
    then WriteSections(a, fs, PlansOf(fs, a.csc, a.layout), crc)
    else Err
  }

  // ----- The loader -----

  predicate Present(a: Artifact.CheckedArtifact, id: u32) {
    Artifact.Find(a.entries, id).Some?
  }

  function LoadSection(a: Artifact.CheckedArtifact, id: u32, count: nat, width: Width): (r: Result<seq<Group>>)
    ensures r.Ok? ==> |r.value| == count
  {
    if !Present(a, id) then Err
    else
      var entry := Artifact.Find(a.entries, id).value;
      var content :- Artifact.ReadSection(a, id);
      LoadGroups(content, entry.offset, entry.elemCount, count, width)
  }

  function ZipColumns(
    offsets: seq<Group>, neighbors: seq<Group>, edgeIds: seq<Group>, types: seq<Group>,
    weights: Option<seq<Group>>): (r: seq<Columns>)
    requires |offsets| == |neighbors| == |edgeIds| == |types| && (weights.Some? ==> |weights.value| == |offsets|)
    ensures |r| == |offsets|
    ensures forall i :: 0 <= i < |r| ==> r[i] == Columns(offsets[i], neighbors[i], edgeIds[i], types[i],
      if weights.Some? then Some(weights.value[i]) else None)
  {
    seq(|offsets|, i requires 0 <= i < |offsets| => Columns(offsets[i], neighbors[i], edgeIds[i], types[i],
      if weights.Some? then Some(weights.value[i]) else None))
  }

  function LoadDirection(a: Artifact.CheckedArtifact, base: u32, count: nat, l: Layout): (r: Result<seq<Columns>>)
    requires base <= 100
    ensures r.Ok? ==> |r.value| == count
  {
    var offsets :- LoadSection(a, base, count, WidthU64);
    var neighbors :- LoadSection(a, base + 1, count, WidthTaggedNeighbor);
    var edgeIds :- LoadSection(a, base + 2, count, WidthU64);
    var types :- LoadSection(a, base + 3, count, l.TypeWidthCode());
    if l.weighted then
      var weights :- LoadSection(a, base + 4, count, WidthF32);
      Ok(ZipColumns(offsets, neighbors, edgeIds, types, Some(weights)))
    else Ok(ZipColumns(offsets, neighbors, edgeIds, types, None))
  }

  function LoadRemap(a: Artifact.CheckedArtifact, flag: bool): Result<Option<seq<u32>>> {
    if !flag then Ok(None)
    else if !Present(a, TYPE_REMAP) then Err
    else
      var entry := Artifact.Find(a.entries, TYPE_REMAP).value;
      var content :- Artifact.ReadSection(a, TYPE_REMAP);
      :- Need(0 < entry.elemCount <= 65536 && |content| == entry.elemCount * 4);
      PowValues();
      var types: seq<u32> := Words(content, 4);
      :- Need((forall i :: 0 <= i < |types| ==> types[i] != 0) && TypesAscending(types));
      Ok(Some(types))
  }

  /** Flags and optional sections must agree. */
  predicate FlagsAgree(a: Artifact.CheckedArtifact, csc: bool, overflow: bool, weights: bool, remap: bool) {
    && (Present(a, 9) || Present(a, 10) || Present(a, 11) || Present(a, 12)) == csc
    && Present(a, TYPE_REMAP) == remap
    && Present(a, OVERFLOW) == overflow
    && Present(a, 8) == weights
    && Present(a, 13) == (csc && weights)
  }

  function LoadNamespaces(a: Artifact.CheckedArtifact, utf8: bytes -> bool): Result<seq<NamespaceRows>> {
    if !Present(a, NAMESPACE_INDEX) then Err
    else
      var content :- Artifact.ReadSection(a, NAMESPACE_INDEX);
      var namespaces :- DecodeNamespaceIndex(content, utf8);
      :- Need(Artifact.Find(a.entries, NAMESPACE_INDEX).value.elemCount == |namespaces|);
      :- Need(forall i :: 0 <= i < |namespaces| ==> namespaces[i].rowCount != 0);
      Ok(namespaces)
  }

  /** The stored columns of every group. */
  datatype Opened = Opened(namespaces: seq<NamespaceRows>, nodes: seq<Group>, outgoing: seq<Columns>,
    incoming: Option<seq<Columns>>, overflow: Option<seq<Group>>) {

    predicate Aligned() {
      && |nodes| == |outgoing| == |namespaces|
      && (incoming.Some? ==> |incoming.value| == |namespaces|)
      && (overflow.Some? ==> |overflow.value| == |namespaces|)
    }
  }

  function LoadColumns(
    a: Artifact.CheckedArtifact, namespaces: seq<NamespaceRows>, csc: bool, overflow: bool,
    l: Layout): (r: Result<Opened>)
    ensures r.Ok? ==> r.value.Aligned() && r.value.namespaces == namespaces
  {
    var n := |namespaces|;
    var nodes :- LoadSection(a, NODE_ORDS, n, WidthU32);
    var outgoing :- LoadDirection(a, OUT_BASE, n, l);
    var incoming :- if csc then LoadDirection(a, IN_BASE, n, l) else Ok([]);
    var chains :- if overflow then LoadSection(a, OVERFLOW, n, WidthOverflowChain) else Ok([]);
    :- Need(overflow ==> Total(chains) != 0);
    Ok(Opened(namespaces, nodes, outgoing, if csc then Some(incoming) else None, if overflow then Some(chains)
      else None))
  }

  function DecodeAt(nids: seq<u64>, o: Opened, l: Layout, i: nat): Result<NamespaceGroup>
    requires o.Aligned() && i < |o.namespaces|
  {
    var rows :- DecodeGroup(nids, o.namespaces[i].rowCount, o.nodes[i], o.outgoing[i],
      if o.incoming.Some? then Some(o.incoming.value[i]) else None,
      if o.overflow.Some? then Some(o.overflow.value[i]) else None, l);
    Ok(NamespaceGroup(o.namespaces[i].namespace, rows))
  }

  function DecodeGroups(nids: seq<u64>, o: Opened, l: Layout, i: nat): (r: Result<seq<NamespaceGroup>>)
    requires o.Aligned() && i <= |o.namespaces|
    ensures r.Ok? ==> |r.value| == |o.namespaces| - i
    decreases |o.namespaces| - i
  {
    if i == |o.namespaces| then Ok([])
    else
      var group :- DecodeAt(nids, o, l, i);
      var rest :- DecodeGroups(nids, o, l, i + 1);
      Ok([group] + rest)
  }

  function UsedTypes(edges: seq<Edge>): set<u32> {
    set i | 0 <= i < |edges| :: edges[i].typeId
  }

  /** The checks over the whole decoded file. */
  predicate FileConsistent(groups: seq<NamespaceGroup>, csc: bool, l: Layout) {
    && IdsDistinct(EdgesOf(groups, Outgoing))
    && IdsDistinct(EdgesOf(groups, Incoming))
    && (csc ==> MirrorsAgree(groups))
    && (l.remap.Some? ==>
          var used := UsedTypes(AllEdges(groups));
          |used| == |l.remap.value| && forall i :: 0 <= i < |l.remap.value| ==> l.remap.value[i] in used)
  }

  /** Open a file and decode every group of it. */
  function OpenFile(file: bytes, nids: seq<u64>, crc: Artifact.Crc, utf8: bytes -> bool): Result<Adjacency> {
    var a :- Artifact.Open(SPEC, crc, file);
    var csc, overflow := a.flags % 2 == 1, a.flags / 2 % 2 == 1;
    var weights, remap := a.flags / 4 % 2 == 1, a.flags / 8 % 2 == 1;
    :- Need(FlagsAgree(a, csc, overflow, weights, remap));
    var types :- LoadRemap(a, remap);
    var l := Layout(types, weights);
    var namespaces :- LoadNamespaces(a, utf8);
    var o :- LoadColumns(a, namespaces, csc, overflow, l);
    var groups :- DecodeGroups(nids, o, l, 0);
    :- Need(FileConsistent(groups, csc, l));
    Ok(Adjacency(groups, csc, l))
  }

  lemma {:induction false} AlignedAt(plans: seq<Plan>, i: nat)
    requires i < |plans| && Artifact.AllPowersOfTwo(ChunkAligned(plans))
    ensures Artifact.AlignmentOf(ChunkAligned(plans), plans[i].id) == 65536
  {
    var alignments := ChunkAligned(plans);
    if alignments[0].0 != plans[i].id {
      assert ChunkAligned(plans[1..]) == alignments[1..];
      AlignedAt(plans[1..], i - 1);
    }
  }

  /** What the file under proof consists of. */
  predicate Laid(
    art: Artifact.CheckedArtifact, flags: u32, front: seq<Artifact.Section>, grouped: seq<Artifact.Section>,
    plans: seq<Plan>) {
    && |grouped| == |plans|
    && (forall i :: 0 <= i < |plans| ==> Planned(plans[i], grouped[i]))
    && Artifact.AllPowersOfTwo(ChunkAligned(plans))
    && Artifact.Faithful(art, flags, Artifact.SortById(front + grouped), ChunkAligned(plans))
  }

  predicate PlanLoaded(art: Artifact.CheckedArtifact, p: Plan) {
    LoadSection(art, p.id, |p.groups|, p.width) == Ok(p.groups)
  }

  lemma {:induction false} PlanLoads(
    art: Artifact.CheckedArtifact, flags: u32, front: seq<Artifact.Section>, grouped: seq<Artifact.Section>,
    plans: seq<Plan>, i: nat)
    requires Laid(art, flags, front, grouped, plans) && i < |plans|
    ensures PlanLoaded(art, plans[i])
  {
    hide LoadGroups, EncodeGroupedSection, Artifact.Faithful, Artifact.ReadSection, Artifact.Find, Artifact.AlignmentOf,
      Total;
    var p, s := plans[i], grouped[i];
    assert s in front + grouped;
    Artifact.SectionFound(art, flags, front + grouped, ChunkAligned(plans), s);
    AlignedAt(plans, i);
    GroupedSectionRoundTrip(p.width, p.groups, s.content, Artifact.Find(art.entries, p.id).value.offset);
  }

  lemma {:induction false} PresentIff(
    art: Artifact.CheckedArtifact, flags: u32, front: seq<Artifact.Section>, grouped: seq<Artifact.Section>,
    plans: seq<Plan>, id: u32)
    requires Laid(art, flags, front, grouped, plans)
    ensures Present(art, id) <==>
      (exists i :: 0 <= i < |front| && front[i].id == id) || (exists i :: 0 <= i < |plans| && plans[i].id == id)
  {
    hide Artifact.Faithful, EncodeGroupedSection, Total;
    var sections := front + grouped;
    if Present(art, id) {
      Artifact.SectionMissing(art, flags, sections, ChunkAligned(plans), id);
      var s :| s in sections && s.id == id;
      var k :| 0 <= k < |sections| && sections[k] == s;
      assert k < |front| ==> front[k].id == id;
      assert k >= |front| ==> Planned(plans[k - |front|], grouped[k - |front|]);
    }
    forall i | 0 <= i < |front| && front[i].id == id ensures Present(art, id) {
      assert sections[i] == front[i];
      Artifact.SectionFound(art, flags, sections, ChunkAligned(plans), front[i]);
    }
    forall i | 0 <= i < |plans| && plans[i].id == id ensures Present(art, id) {
      assert sections[|front| + i] == grouped[i] && Planned(plans[i], grouped[i]);
      Artifact.SectionFound(art, flags, sections, ChunkAligned(plans), grouped[i]);
    }
  }

  // ----- Columns back from their sections -----

  predicate AllLoaded(art: Artifact.CheckedArtifact, plans: seq<Plan>) {
    forall i :: 0 <= i < |plans| ==> PlanLoaded(art, plans[i])
  }

  lemma {:induction false} AllLoadedParts(art: Artifact.CheckedArtifact, a: seq<Plan>, b: seq<Plan>)
    requires AllLoaded(art, a + b)
    ensures AllLoaded(art, a) && AllLoaded(art, b)
  {
    forall i | 0 <= i < |a| ensures PlanLoaded(art, a[i]) {
      assert (a + b)[i] == a[i];
    }
    forall i | 0 <= i < |b| ensures PlanLoaded(art, b[i]) {
      assert (a + b)[|a| + i] == b[i];
    }
  }

  lemma {:induction false} DirectionLoads(art: Artifact.CheckedArtifact, base: u32, cs: seq<Columns>, l: Layout)
    requires base <= 100 && AllLoaded(art, DirectionPlans(base, cs, l))
    requires forall i :: 0 <= i < |cs| ==> cs[i].weights.Some? == l.weighted
    ensures LoadDirection(art, base, |cs|, l) == Ok(cs)
  {
    hide LoadSection;
    var plans := DirectionPlans(base, cs, l);
    assert PlanLoaded(art, plans[0]) && PlanLoaded(art, plans[1]) && PlanLoaded(art, plans[2])
      && PlanLoaded(art, plans[3]);
    var offsets, neighbors := plans[0].groups, plans[1].groups;
    var edgeIds, types := plans[2].groups, plans[3].groups;
    if l.weighted {
      assert PlanLoaded(art, plans[4]);
      assert ZipColumns(offsets, neighbors, edgeIds, types, Some(plans[4].groups)) == cs;
    } else {
      assert ZipColumns(offsets, neighbors, edgeIds, types, None) == cs;
    }
  }

  lemma {:induction false} FrameFacts(groups: seq<NamespaceGroup>, csc: bool, l: Layout, fs: seq<GroupFrames>)
    requires EncodeGroups(groups, csc, l) == Ok(fs)
    ensures forall i :: 0 <= i < |fs| ==> fs[i].outgoing.weights.Some? == l.weighted
    ensures forall i :: 0 <= i < |fs| ==>
      && fs[i].incoming.Some? == csc
      && (csc ==> fs[i].incoming.value.weights.Some? == l.weighted)
  {
    forall i | 0 <= i < |fs|
      ensures fs[i].outgoing.weights.Some? == l.weighted && fs[i].incoming.Some? == csc
      ensures csc ==> fs[i].incoming.value.weights.Some? == l.weighted
    {
      FrameWeights(groups[i].rows, csc, l, fs[i]);
    }
  }

  lemma {:induction false} FrameWeights(rows: seq<Row>, csc: bool, l: Layout, f: GroupFrames)
    requires EncodeGroup(rows, csc, l) == Ok(f)
    ensures f.outgoing.weights.Some? == l.weighted && f.incoming.Some? == csc
    ensures csc ==> f.incoming.value.weights.Some? == l.weighted
  {
    hide GroupChains, EncodeOverflowGroup, Ascending, InlineRows, EncodeColumns;
    ColumnWeights(InlineRows(Side(rows, Outgoing), l), l);
    ColumnWeights(InlineRows(Side(rows, Incoming), l), l);
  }

  lemma {:induction false} ColumnWeights(rows: seq<seq<Edge>>, l: Layout)
    ensures EncodeColumns(rows, l).Ok? ==> EncodeColumns(rows, l).value.weights.Some? == l.weighted
  {
  }

  /** The opened columns of a written file. */
  function OpenedOf(namespaces: seq<NamespaceRows>, fs: seq<GroupFrames>, csc: bool): Opened
    requires ChainCountsFit(fs) && (csc ==> IncomingPresent(fs))
  {
    Opened(namespaces, NodeGroups(fs), OutColumns(fs), if csc then Some(InColumns(fs)) else None,
      if HasChains(fs) then Some(OverflowGroups(fs)) else None)
  }

  lemma {:induction false} TotalPositive(groups: seq<Group>, i: nat)
    requires i < |groups| && groups[i].elemCount > 0
    ensures Total(groups) > 0
  {
    if i > 0 {
      TotalPositive(groups[1..], i - 1);
    }
  }

  lemma {:induction false} ColumnsLoad(
    art: Artifact.CheckedArtifact, namespaces: seq<NamespaceRows>, groups: seq<NamespaceGroup>, fs: seq<GroupFrames>,
    csc: bool, l: Layout)
    requires EncodeGroups(groups, csc, l) == Ok(fs) && |namespaces| == |fs|
    requires ChainCountsFit(fs) && (csc ==> IncomingPresent(fs))
    requires AllLoaded(art, PlansOf(fs, csc, l))
    ensures LoadColumns(art, namespaces, csc, HasChains(fs), l) == Ok(OpenedOf(namespaces, fs, csc))
  {
    hide LoadSection, LoadDirection, EncodeGroups, EncodeGroup, DirectionPlans, Total;
    FrameFacts(groups, csc, l, fs);
    var nodes, outgoing := [Plan(NODE_ORDS, WidthU32, NodeGroups(fs))], DirectionPlans(OUT_BASE, OutColumns(fs), l);
    var incoming := if csc then DirectionPlans(IN_BASE, InColumns(fs), l) else [];
    var chains := if HasChains(fs) then [Plan(OVERFLOW, WidthOverflowChain, OverflowGroups(fs))] else [];
    AllLoadedParts(art, nodes + outgoing + incoming, chains);
    AllLoadedParts(art, nodes + outgoing, incoming);
    AllLoadedParts(art, nodes, outgoing);
    assert PlanLoaded(art, nodes[0]);
    DirectionLoads(art, OUT_BASE, OutColumns(fs), l);
    if csc {
      DirectionLoads(art, IN_BASE, InColumns(fs), l);
    }
    if HasChains(fs) {
      assert PlanLoaded(art, chains[0]);
      var i :| 0 <= i < |fs| && fs[i].chainCount > 0;
      TotalPositive(OverflowGroups(fs), i);
    }
  }

  // ----- Flags and the front sections -----

  lemma {:induction false} FlagBits(csc: bool, overflow: bool, l: Layout)
    ensures var f := Flags(csc, overflow, l);
      && (f % 2 == 1) == csc && (f / 2 % 2 == 1) == overflow
      && (f / 4 % 2 == 1) == l.weighted && (f / 8 % 2 == 1) == l.remap.Some?
  {
  }

  predicate PlanId(plans: seq<Plan>, id: u32) {
    exists i :: 0 <= i < |plans| && plans[i].id == id
  }

  lemma {:induction false} PlanIdParts(a: seq<Plan>, b: seq<Plan>, id: u32)
    ensures PlanId(a + b, id) <==> PlanId(a, id) || PlanId(b, id)
  {
    forall i | 0 <= i < |a| && a[i].id == id ensures PlanId(a + b, id) {
      assert (a + b)[i].id == id;
    }
    forall i | 0 <= i < |b| && b[i].id == id ensures PlanId(a + b, id) {
      assert (a + b)[|a| + i].id == id;
    }
  }

  lemma {:induction false} DirectionIds(base: u32, cs: seq<Columns>, l: Layout, id: u32)
    requires base <= 100
    ensures PlanId(DirectionPlans(base, cs, l), id) <==> base <= id < base + 4 || (l.weighted && id == base + 4)
  {
    var plans := DirectionPlans(base, cs, l);
    assert plans[0].id == base && plans[1].id == base + 1 && plans[2].id == base + 2 && plans[3].id == base + 3;
    assert l.weighted ==> plans[4].id == base + 4;
  }

  lemma {:induction false} PlanIds(fs: seq<GroupFrames>, csc: bool, l: Layout, id: u32)
    requires ChainCountsFit(fs) && (csc ==> IncomingPresent(fs))
    ensures PlanId(PlansOf(fs, csc, l), id) <==>
      || 3 <= id <= 7 || (id == 8 && l.weighted)
      || (csc && 9 <= id <= 12) || (csc && l.weighted && id == 13)
      || (HasChains(fs) && id == 14)
  {
    hide DirectionPlans, HasChains;
    var nodes, outgoing := [Plan(NODE_ORDS, WidthU32, NodeGroups(fs))], DirectionPlans(OUT_BASE, OutColumns(fs), l);
    var incoming := if csc then DirectionPlans(IN_BASE, InColumns(fs), l) else [];
    var chains := if HasChains(fs) then [Plan(OVERFLOW, WidthOverflowChain, OverflowGroups(fs))] else [];
    PlanIdParts(nodes + outgoing + incoming, chains, id);
    PlanIdParts(nodes + outgoing, incoming, id);
    PlanIdParts(nodes, outgoing, id);
    assert PlanId(nodes, id) <==> id == 3 by { assert nodes[0].id == 3; }
    DirectionIds(OUT_BASE, OutColumns(fs), l, id);
    if csc {
      DirectionIds(IN_BASE, InColumns(fs), l, id);
    }
    if HasChains(fs) {
      assert PlanId(chains, id) <==> id == 14 by { assert chains[0].id == 14; }
    }
  }

  lemma {:induction false} PresentIds(
    art: Artifact.CheckedArtifact, flags: u32, index: Artifact.Section, grouped: seq<Artifact.Section>,
    fs: seq<GroupFrames>, csc: bool, l: Layout, id: u32)
    requires l.Valid() && index.id == NAMESPACE_INDEX
    requires ChainCountsFit(fs) && (csc ==> IncomingPresent(fs))
    requires Laid(art, flags, RemapSections(l) + [index], grouped, PlansOf(fs, csc, l))
    requires id != NAMESPACE_INDEX
    ensures Present(art, id) <==>
      || (id == 1 && l.remap.Some?)
      || 3 <= id <= 7 || (id == 8 && l.weighted)
      || (csc && 9 <= id <= 12) || (csc && l.weighted && id == 13)
      || (HasChains(fs) && id == 14)
  {
    hide PlansOf, Laid, HasChains, PutWords;
    var front := RemapSections(l) + [index];
    PresentIff(art, flags, front, grouped, PlansOf(fs, csc, l), id);
    PlanIds(fs, csc, l, id);
    assert (exists i :: 0 <= i < |front| && front[i].id == id) <==> id == 1 && l.remap.Some? by {
      if l.remap.Some? {
        assert front[0].id == 1;
      }
    }
  }

  lemma {:induction false} FlagsMatch(
    art: Artifact.CheckedArtifact, flags: u32, index: Artifact.Section, grouped: seq<Artifact.Section>,
    fs: seq<GroupFrames>, csc: bool, l: Layout)
    requires l.Valid() && index.id == NAMESPACE_INDEX
    requires ChainCountsFit(fs) && (csc ==> IncomingPresent(fs))
    requires Laid(art, flags, RemapSections(l) + [index], grouped, PlansOf(fs, csc, l))
    ensures FlagsAgree(art, csc, HasChains(fs), l.weighted, l.remap.Some?)
  {
    hide PlansOf, Laid, HasChains, RemapSections, Present;
    PresentIds(art, flags, index, grouped, fs, csc, l, 1);
    PresentIds(art, flags, index, grouped, fs, csc, l, 8);
    PresentIds(art, flags, index, grouped, fs, csc, l, 9);
    PresentIds(art, flags, index, grouped, fs, csc, l, 10);
    PresentIds(art, flags, index, grouped, fs, csc, l, 11);
    PresentIds(art, flags, index, grouped, fs, csc, l, 12);
    PresentIds(art, flags, index, grouped, fs, csc, l, 13);
    PresentIds(art, flags, index, grouped, fs, csc, l, 14);
  }

  lemma {:induction false} FrontFound(
    art: Artifact.CheckedArtifact, flags: u32, front: seq<Artifact.Section>, grouped: seq<Artifact.Section>,
    plans: seq<Plan>, s: Artifact.Section)
    requires Laid(art, flags, front, grouped, plans) && s in front
    ensures Present(art, s.id) && Artifact.ReadSection(art, s.id) == Ok(s.content)
    ensures Artifact.Find(art.entries, s.id).value.elemCount == s.elemCount
  {
    hide Artifact.Faithful, Artifact.ReadSection, Artifact.Find;
    assert s in front + grouped;
    Artifact.SectionFound(art, flags, front + grouped, ChunkAligned(plans), s);
  }

  lemma {:induction false} RemapLoads(
    art: Artifact.CheckedArtifact, flags: u32, front: seq<Artifact.Section>, grouped: seq<Artifact.Section>,
    plans: seq<Plan>, l: Layout)
    requires l.Valid() && Laid(art, flags, front, grouped, plans)
    requires forall s :: s in RemapSections(l) ==> s in front
    requires l.remap.Some? ==> l.remap.value != [] && TypesAscending(l.remap.value)
    requires l.remap.Some? ==> forall i :: 0 <= i < |l.remap.value| ==> l.remap.value[i] != 0
    ensures LoadRemap(art, l.remap.Some?) == Ok(l.remap)
  {
    hide Laid, Artifact.ReadSection, Artifact.Find, Words, PutWords, TypesAscending;
    if l.remap.Some? {
      var types := l.remap.value;
      var s := Artifact.Section(TYPE_REMAP, |types|, PutWords(types, 4));
      assert s in RemapSections(l) by { assert RemapSections(l)[0] == s; }
      FrontFound(art, flags, front, grouped, plans, s);
      PowValues();
      WordsRoundTrip(types, 4);
    }
  }

  lemma {:induction false} NamespacesLoad(
    art: Artifact.CheckedArtifact, flags: u32, front: seq<Artifact.Section>, grouped: seq<Artifact.Section>,
    plans: seq<Plan>, groups: seq<NamespaceGroup>, index: Artifact.Section, namespaces: seq<NamespaceRows>,
    utf8: bytes -> bool)
    requires Laid(art, flags, front, grouped, plans) && index in front
    requires NamespaceList(groups) == Ok(namespaces) && IndexSection(groups) == Ok(index)
    requires forall g :: 0 <= g < |groups| ==>
      && groups[g].rows != []
      && (groups[g].namespace.Tenant? ==> utf8(groups[g].namespace.name))
    ensures LoadNamespaces(art, utf8) == Ok(namespaces)
  {
    hide Laid, Artifact.ReadSection, Artifact.Find, DecodeNamespaceIndex, EncodeNamespaceIndex, NamespaceList;
    FrontFound(art, flags, front, grouped, plans, index);
    NamespaceIndexRoundTrip(namespaces, utf8, index.content);
  }

  // ----- Groups back from their columns -----

  lemma {:induction false} GroupDecodes(
    nids: seq<u64>, a: Adjacency, fs: seq<GroupFrames>, namespaces: seq<NamespaceRows>, i: nat)
    requires a.layout.Valid() && i < |a.groups|
    requires RowsBuilt(nids, a.groups[i].rows, a.csc, a.layout)
    requires NamespaceList(a.groups) == Ok(namespaces) && EncodeGroups(a.groups, a.csc, a.layout) == Ok(fs)
    requires ChainCountsFit(fs) && (a.csc ==> IncomingPresent(fs))
    ensures DecodeAt(nids, OpenedOf(namespaces, fs, a.csc), a.layout, i) == Ok(a.groups[i])
  {
    hide RowsBuilt, DecodeGroup, EncodeGroup, NamespaceList, EncodeGroups;
    var o := OpenedOf(namespaces, fs, a.csc);
    var overflow := if o.overflow.Some? then Some(o.overflow.value[i]) else None;
    FrameFacts(a.groups, a.csc, a.layout, fs);
    GroupRoundTrip(nids, a.groups[i].rows, a.csc, a.layout, fs[i], overflow);
  }

  lemma {:induction false} GroupsDecode(nids: seq<u64>, o: Opened, l: Layout, groups: seq<NamespaceGroup>, i: nat)
    requires o.Aligned() && |groups| == |o.namespaces| && i <= |groups|
    requires forall g :: 0 <= g < |groups| ==> DecodeAt(nids, o, l, g) == Ok(groups[g])
    ensures DecodeGroups(nids, o, l, i) == Ok(groups[i..])
    decreases |groups| - i
  {
    hide DecodeAt;
    if i < |groups| {
      GroupsDecode(nids, o, l, groups, i + 1);
      assert groups[i..] == [groups[i]] + groups[i + 1..];
    } else {
      assert groups[i..] == [];
    }
  }

  // ----- The checks over the whole file -----

  lemma {:induction false} TypesUsed(edges: seq<Edge>)
    ensures |UsedTypes(edges)| == |TypeList(edges)|
    ensures forall i :: 0 <= i < |TypeList(edges)| ==> TypeList(edges)[i] in UsedTypes(edges)
  {
    TypeListFacts(edges);
    var types := TypeList(edges);
    TypesCounted(types);
    var listed := set i | 0 <= i < |types| :: types[i];
    forall x ensures x in listed <==> x in UsedTypes(edges) {
      assert x in types <==> UsesType(edges, x);
    }
    assert listed == UsedTypes(edges);
    forall i | 0 <= i < |types| ensures types[i] in UsedTypes(edges) {
      assert UsesType(edges, types[i]);
    }
  }

  lemma {:induction false} EdgeLocated(
    groups: seq<NamespaceGroup>, d: Direction, k: nat) returns (g: nat, r: nat, i: nat)
    requires k < |EdgesOf(groups, d)|
    ensures g < |groups| && r < |groups[g].rows|
    ensures i < |Side(groups[g].rows, d)[r]| && Side(groups[g].rows, d)[r][i] == EdgesOf(groups, d)[k]
  {
    g, i := FlatLocate(GroupEdges(groups, d), k);
    r, i := FlatLocate(Side(groups[g].rows, d), i);
  }

  /** Every position of a concatenation lies in one of its items. */
  lemma {:induction false} FlatLocate<T>(items: seq<seq<T>>, k: nat) returns (i: nat, j: nat)
    requires k < |Flat(items)|
    ensures i < |items| && j < |items[i]| && items[i][j] == Flat(items)[k]
  {
    if k < |items[0]| {
      i, j := 0, k;
    } else {
      var m, n := FlatLocate(items[1..], k - |items[0]|);
      i, j := m + 1, n;
    }
  }

  lemma {:induction false} TypesNonZero(nids: seq<u64>, a: Adjacency)
    requires forall g :: 0 <= g < |a.groups| ==> RowsBuilt(nids, a.groups[g].rows, a.csc, a.layout)
    ensures forall i :: 0 <= i < |TypeList(AllEdges(a.groups))| ==> TypeList(AllEdges(a.groups))[i] != 0
  {
    hide EdgesOf, TypeList, OrdinalsValid, RowSorted;
    var all := AllEdges(a.groups);
    TypeListFacts(all);
    forall i | 0 <= i < |TypeList(all)| ensures TypeList(all)[i] != 0 {
      assert UsesType(all, TypeList(all)[i]);
      var k :| 0 <= k < |all| && all[k].typeId == TypeList(all)[i];
      var split := |EdgesOf(a.groups, Outgoing)|;
      var d := if k < split then Outgoing else Incoming;
      var g, r, j := EdgeLocated(a.groups, d, if k < split then k else k - split);
      var row := Side(a.groups[g].rows, d)[r];
      assert RowValid(nids, a.groups[g].rows[r].node, row, a.layout);
      assert EdgeValid(nids, a.groups[g].rows[r].node, row[j], a.layout);
    }
  }

  // ----- The theorem -----

  lemma {:induction false} LaidOut(a: Adjacency, fs: seq<GroupFrames>, plans: seq<Plan>, crc: Artifact.Crc, file: bytes)
    returns (art: Artifact.CheckedArtifact, index: Artifact.Section, grouped: seq<Artifact.Section>)
    requires a.layout.Valid() && WriteSections(a, fs, plans, crc) == Ok(file)
    ensures Artifact.Open(SPEC, crc, file) == Ok(art) && art.flags == Flags(a.csc, HasChains(fs), a.layout)
    ensures IndexSection(a.groups) == Ok(index)
    ensures Laid(art, Flags(a.csc, HasChains(fs), a.layout), RemapSections(a.layout) + [index], grouped, plans)
  {
    hide Artifact.EncodeWithAlignments, Artifact.Open, EncodeGroupedSection, Total, HasChains, PutWords,
      Artifact.SortById, Artifact.EntryFaithful;
    index := IndexSection(a.groups).value;
    grouped := EncodePlans(plans).value;
    var flags := Flags(a.csc, HasChains(fs), a.layout);
    Artifact.ArtifactRoundTrip(SPEC, crc, flags, RemapSections(a.layout) + [index] + grouped, ChunkAligned(plans),
      file);
    art := Artifact.Open(SPEC, crc, file).value;
  }

  /** The loader's steps one after another. */
  lemma {:induction false} OpenSteps(
    file: bytes, nids: seq<u64>, crc: Artifact.Crc, utf8: bytes -> bool, art: Artifact.CheckedArtifact, overflow: bool,
    o: Opened, a: Adjacency)
    requires Artifact.Open(SPEC, crc, file) == Ok(art) && art.flags == Flags(a.csc, overflow, a.layout)
    requires FlagsAgree(art, a.csc, overflow, a.layout.weighted, a.layout.remap.Some?)
    requires LoadRemap(art, a.layout.remap.Some?) == Ok(a.layout.remap)
    requires LoadNamespaces(art, utf8) == Ok(o.namespaces)
    requires LoadColumns(art, o.namespaces, a.csc, overflow, a.layout) == Ok(o)
    requires o.Aligned() && DecodeGroups(nids, o, a.layout, 0) == Ok(a.groups)
    requires FileConsistent(a.groups, a.csc, a.layout)
    ensures OpenFile(file, nids, crc, utf8) == Ok(a)
  {
    hide Artifact.Open, FlagsAgree, LoadRemap, LoadNamespaces, LoadColumns, DecodeGroups, FileConsistent, Flags;
    FlagBits(a.csc, overflow, a.layout);
    assert Layout(a.layout.remap, a.layout.weighted) == a.layout;
  }

  lemma {:induction false} ColumnsOpen(
    nids: seq<u64>, a: Adjacency, fs: seq<GroupFrames>, art: Artifact.CheckedArtifact, flags: u32,
    front: seq<Artifact.Section>, grouped: seq<Artifact.Section>, namespaces: seq<NamespaceRows>)
    requires a.layout.Valid() && EncodeGroups(a.groups, a.csc, a.layout) == Ok(fs)
      && NamespaceList(a.groups) == Ok(namespaces)
    requires forall g :: 0 <= g < |a.groups| ==> RowsBuilt(nids, a.groups[g].rows, a.csc, a.layout)
    requires ChainCountsFit(fs) && (a.csc ==> IncomingPresent(fs))
    requires Laid(art, flags, front, grouped, PlansOf(fs, a.csc, a.layout))
    ensures LoadColumns(art, namespaces, a.csc, HasChains(fs), a.layout) == Ok(OpenedOf(namespaces, fs, a.csc))
    ensures DecodeGroups(nids, OpenedOf(namespaces, fs, a.csc), a.layout, 0) == Ok(a.groups)
  {
    hide EncodeGroups, PlansOf, LoadColumns, DecodeGroups, DecodeAt, Laid, RowsBuilt, HasChains, NamespaceList,
      PlanLoaded;
    var plans := PlansOf(fs, a.csc, a.layout);
    forall i | 0 <= i < |plans| ensures PlanLoaded(art, plans[i]) {
      PlanLoads(art, flags, front, grouped, plans, i);
    }
    ColumnsLoad(art, namespaces, a.groups, fs, a.csc, a.layout);
    var o := OpenedOf(namespaces, fs, a.csc);
    forall g | 0 <= g < |a.groups| ensures DecodeAt(nids, o, a.layout, g) == Ok(a.groups[g]) {
      GroupDecodes(nids, a, fs, namespaces, g);
    }
    GroupsDecode(nids, o, a.layout, a.groups, 0);
    assert a.groups[0..] == a.groups;
  }

  lemma {:induction false} FrontOpens(
    nids: seq<u64>, a: Adjacency, art: Artifact.CheckedArtifact, flags: u32, grouped: seq<Artifact.Section>,
    plans: seq<Plan>, index: Artifact.Section, namespaces: seq<NamespaceRows>, utf8: bytes -> bool)
    requires Built(nids, a) && Laid(art, flags, RemapSections(a.layout) + [index], grouped, plans)
    requires NamespaceList(a.groups) == Ok(namespaces) && IndexSection(a.groups) == Ok(index)
    requires forall g :: 0 <= g < |a.groups| ==> a.groups[g].namespace.Tenant? ==> utf8(a.groups[g].namespace.name)
    ensures LoadRemap(art, a.layout.remap.Some?) == Ok(a.layout.remap)
    ensures LoadNamespaces(art, utf8) == Ok(namespaces)
  {
    hide LoadRemap, LoadNamespaces, Laid, RowsBuilt, Admissible, TypeList, AllEdges, RemapSections, IndexSection,
      NamespaceList, Ascending;
    TypesNonZero(nids, a);
    TypeListFacts(AllEdges(a.groups));
    var front := RemapSections(a.layout) + [index];
    RemapLoads(art, flags, front, grouped, plans, a.layout);
    NamespacesLoad(art, flags, front, grouped, plans, a.groups, index, namespaces, utf8);
  }

  lemma {:induction false} FileOpens(nids: seq<u64>, a: Adjacency, crc: Artifact.Crc, utf8: bytes -> bool, file: bytes)
    requires Built(nids, a) && Write(a, crc) == Ok(file)
    requires forall g :: 0 <= g < |a.groups| ==> a.groups[g].namespace.Tenant? ==> utf8(a.groups[g].namespace.name)
    ensures OpenFile(file, nids, crc, utf8) == Ok(a)
  {
    hide EncodeGroups, WriteSections, PlansOf, Artifact.Open, LoadRemap, LoadNamespaces, LoadColumns, DecodeGroups,
      OpenFile, NamespaceList, FlagsAgree, Laid, RowsBuilt, Admissible, TypeList, AllEdges, HasChains, RemapSections,
        IndexSection, Flags, Ascending, FileConsistent;
    var l := a.layout;
    var fs := EncodeGroups(a.groups, a.csc, l).value;
    var plans := PlansOf(fs, a.csc, l);
    var art, index, grouped := LaidOut(a, fs, plans, crc, file);
    var flags := Flags(a.csc, HasChains(fs), l);
    IndexId(a.groups, index);
    FlagsMatch(art, flags, index, grouped, fs, a.csc, l);
    var namespaces := NamespaceList(a.groups).value;
    FrontOpens(nids, a, art, flags, grouped, plans, index, namespaces, utf8);
    ColumnsOpen(nids, a, fs, art, flags, RemapSections(l) + [index], grouped, namespaces);
    Consistent(a);
    OpenSteps(file, nids, crc, utf8, art, HasChains(fs), OpenedOf(namespaces, fs, a.csc), a);
  }

  lemma {:induction false} IndexId(groups: seq<NamespaceGroup>, index: Artifact.Section)
    requires IndexSection(groups) == Ok(index)
    ensures index.id == NAMESPACE_INDEX && NamespaceList(groups).Ok?
  {
  }

  lemma {:induction false} Consistent(a: Adjacency)
    requires Admissible(a.groups, a.csc)
    requires a.layout.remap.Some? ==> a.layout.remap.value == TypeList(AllEdges(a.groups))
    ensures FileConsistent(a.groups, a.csc, a.layout)
  {
    hide MirrorsAgree, TypeList, AllEdges, EdgesOf, UsedTypes;
    TypesUsed(AllEdges(a.groups));
  }

  /** Whatever the builder accepts and the writer stores, the loader opens, and every group comes back:
      namespaces, rows in order, types through the remap, weights and the incoming side, with rows
      rejoined from inline arrays and overflow chains. */
  lemma {:induction false} AdjacencyRoundTrip(
    nids: seq<u64>, groups: seq<GroupInput>, csc: bool, useRemap: bool, crc: Artifact.Crc, utf8: bytes -> bool,
    a: Adjacency, file: bytes)
    requires Build(nids, groups, csc, useRemap) == Ok(a) && Write(a, crc) == Ok(file)
    requires forall g :: 0 <= g < |groups| ==> groups[g].namespace.Tenant? ==> utf8(groups[g].namespace.name)
    ensures OpenFile(file, nids, crc, utf8) == Ok(a)
  {
    hide Write, OpenFile, Built, NormalizeGroups, Admissible, TypeList, Ascending;
    BuildEstablishes(nids, groups, csc, useRemap, a);
    var key := (g: GroupInput) => NamespaceKey(g.namespace);
    forall i | 0 <= i < |a.groups| ensures a.groups[i].namespace.Tenant? ==> utf8(a.groups[i].namespace.name) {
      SortMember(groups, key, Sort(groups, key)[i]);
    }
    FileOpens(nids, a, crc, utf8, file);
  }
}
