/** Bounded selectivity estimates and calibration envelopes (`graph_estimator.rs`). Counts are 64-bit,
    products 128-bit and saturating; `usize` is 64 bits. */
module Estimator {
  import opened Wrappers
  import opened Bytes

  const MAX_GRAPH_DEPTH: nat := 16
  const MAX_ENVELOPES: nat := 4096
  const EXACT_SCAN_MAX_CANDIDATES: nat := 5000
  const U128_MAX: nat := 0xFFFF_FFFF_FFFF_FFFF_FFFF_FFFF_FFFF_FFFF

  // ----- Bounded probes -----

  datatype Truncation = Complete | Edges | Other

  datatype ProbePolicy = ProbePolicy(edgeBudget: u64, minExpanded: u64, uncertaintyBps: nat)

  datatype Observation = Observation(
    targetHops: nat, completedHops: nat, seen: u64, expanded: u64, frontier: u64,
    discovered: u64, edgesExamined: u64, truncation: Truncation)

  datatype Boundaries = Boundaries(floorBps: Option<nat>, p5MinBps: Option<nat>)

  datatype PlannerEstimate = Exact(admitted: nat) | Probe(admitted: nat, conclusive: bool)

  datatype Estimate = Estimate(planner: PlannerEstimate, lower: nat, upper: nat)

  datatype Region = Region(exactScan: bool, belowFloor: bool, p5Candidate: bool)

  function Min(a: nat, b: nat): nat {
    if a <= b then a else b
  }

  function CeilDiv(a: nat, d: nat): nat
    requires d > 0
  {
    if a % d == 0 then a / d else a / d + 1
  }

  function SaturatingMul(a: nat, b: nat): nat {
    Min(a * b, U128_MAX)
  }

  function SaturatingAdd(a: nat, b: nat): nat {
    Min(a + b, U128_MAX)
  }

  predicate BoundaryFits(b: Option<nat>) {
    b.Some? ==> b.value <= 10000
  }

  /** `validate_probe`. */
  predicate ProbeValid(points: u64, policy: ProbePolicy, o: Observation, b: Boundaries) {
    && points > 0 && policy.edgeBudget > 0 && policy.minExpanded > 0 && policy.uncertaintyBps <= 10000
    && 0 < o.targetHops <= MAX_GRAPH_DEPTH && o.completedHops <= o.targetHops
    && o.edgesExamined <= policy.edgeBudget
    && o.seen <= points && o.expanded <= points && o.frontier <= o.seen && o.discovered <= o.edgesExamined
    && BoundaryFits(b.floorBps) && BoundaryFits(b.p5MinBps)
    && !(o.completedHops < o.targetHops && o.expanded == 0 && o.truncation.Edges?)
  }

  predicate RatioBelow(admitted: nat, points: nat, bps: nat) {
    admitted * 10000 < points * bps
  }

  function DecisionRegion(admitted: nat, points: nat, b: Boundaries): Region {
    Region(
      admitted <= EXACT_SCAN_MAX_CANDIDATES && admitted * 100 <= points * 5,
      b.floorBps.Some? && RatioBelow(admitted, points, b.floorBps.value),
      b.p5MinBps.Some? && !RatioBelow(admitted, points, b.p5MinBps.value))
  }

  // ----- Extrapolation -----

  /** One more hop in exact arithmetic: the frontier times the branching factor, rounded up. */
  function NextFrontier(next: nat, branchBps: nat, cap: nat): nat {
    Min(CeilDiv(next * branchBps, 10000), cap)
  }

  /** All remaining hops, never above the collection. */
  function Grow(total: nat, next: nat, branchBps: nat, hops: nat, cap: nat): nat
    decreases hops
  {
    if hops == 0 then total
    else
      var next' := NextFrontier(next, branchBps, cap);
      Grow(Min(total + next', cap), next', branchBps, hops - 1, cap)
  }

  function Extrapolated(points: nat, seen: nat, frontier: nat, branchBps: nat, hops: nat): nat {
    Grow(Min(seen, points), Min(frontier, points), branchBps, hops, points)
  }

  lemma {:induction false} CeilMonotone(a: nat, b: nat, d: nat)
    requires a <= b && d > 0
    ensures CeilDiv(a, d) <= CeilDiv(b, d)
  {
    DivMonotone(a, b, d);
    if a / d == b / d && a % d != 0 {
      assert a == d * (a / d) + a % d && b == d * (b / d) + b % d;
    }
  }

  lemma {:induction false} DivMonotone(a: nat, b: nat, d: nat)
    requires a <= b && d > 0
    ensures a / d <= b / d
  {
    if a / d > b / d {
      assert b < d * (b / d + 1);
      MulMonotone(b / d + 1, a / d, d);
    }
  }

  lemma {:induction false} ProductMonotone(a: nat, b: nat, c: nat, d: nat)
    requires a <= c && b <= d
    ensures a * b <= c * d
  {
    MulMonotone(a, c, b);
    MulMonotone(b, d, c);
  }

  /** Saturating at 128 bits changes nothing once the result is cut at a 64-bit cap. */
  lemma {:induction false} SaturationHarmless(next: nat, branchBps: nat, cap: nat)
    requires cap < U64_LIMIT
    ensures Min(CeilDiv(SaturatingMul(next, branchBps), 10000), cap) == NextFrontier(next, branchBps, cap)
  {
    if next * branchBps > U128_MAX {
      assert CeilDiv(U128_MAX, 10000) >= cap;
      CeilMonotone(U128_MAX, next * branchBps, 10000);
    }
  }

  /** Once everything is counted, more hops add nothing: stopping early is exact. */
  lemma {:induction false} GrowAtCap(next: nat, branchBps: nat, hops: nat, cap: nat)
    ensures Grow(cap, next, branchBps, hops, cap) == cap
    decreases hops
  {
    if hops > 0 {
      var next' := NextFrontier(next, branchBps, cap);
      GrowAtCap(next', branchBps, hops - 1, cap);
    }
  }

  lemma {:induction false} GrowBounds(total: nat, next: nat, branchBps: nat, hops: nat, cap: nat)
    requires total <= cap
    ensures total <= Grow(total, next, branchBps, hops, cap) <= cap
    decreases hops
  {
    if hops > 0 {
      var next' := NextFrontier(next, branchBps, cap);
      GrowBounds(Min(total + next', cap), next', branchBps, hops - 1, cap);
    }
  }

  /** A larger branching factor never extrapolates to less. */
  lemma {:induction false} GrowMonotone(
    total: nat, next: nat, low: nat, total': nat, next': nat, high: nat, hops: nat, cap: nat)
    requires total <= total' && next <= next' && low <= high
    ensures Grow(total, next, low, hops, cap) <= Grow(total', next', high, hops, cap)
    decreases hops
  {
    if hops > 0 {
      var n, n' := NextFrontier(next, low, cap), NextFrontier(next', high, cap);
      ProductMonotone(next, low, next', high);
      CeilMonotone(next * low, next' * high, 10000);
      GrowMonotone(Min(total + n, cap), n, low, Min(total' + n', cap), n', high, hops - 1, cap);
    }
  }

  /** `extrapolate`: the saturating loop that stops early computes the exact extrapolation. */
  method Extrapolate(points: u64, seen: u64, frontier: u64, branchBps: nat, hops: nat) returns (r: nat)
    ensures r == Extrapolated(points, seen, frontier, branchBps, hops)
  {
    hide CeilDiv, SaturatingMul, NextFrontier;
    var total: nat, next: nat := Min(seen, points), Min(frontier, points);
    var hop := 0;
    while hop < hops
      invariant hop <= hops && total <= points
      invariant Grow(total, next, branchBps, hops - hop, points)
        == Extrapolated(points, seen, frontier, branchBps, hops)
    {
      SaturationHarmless(next, branchBps, points);
      ghost var before := next;
      next := Min(CeilDiv(SaturatingMul(next, branchBps), 10000), points);
      assert next == NextFrontier(before, branchBps, points);
      total := Min(SaturatingAdd(total, next), points);
      hop := hop + 1;
      if total == points {
        GrowAtCap(next, branchBps, hops - hop, points);
        break;
      }
    }
    return total;
  }

  // ----- The estimate -----

  function BranchBps(o: Observation): nat
    requires o.expanded > 0
  {
    o.discovered * 10000 / o.expanded
  }

  function LowerBranch(o: Observation, policy: ProbePolicy): nat
    requires o.expanded > 0 && policy.uncertaintyBps <= 10000
  {
    BranchBps(o) * (10000 - policy.uncertaintyBps) / 10000
  }

  function UpperBranch(o: Observation, policy: ProbePolicy): nat
    requires o.expanded > 0
  {
    CeilDiv(BranchBps(o) * (10000 + policy.uncertaintyBps), 10000)
  }

  predicate Extrapolates(policy: ProbePolicy, o: Observation) {
    && (o.truncation.Complete? || (o.truncation.Edges? && o.edgesExamined == policy.edgeBudget))
    && o.expanded >= policy.minExpanded
  }

  /** What a valid probe estimates, in exact arithmetic. */
  function ProbeEstimate(points: u64, policy: ProbePolicy, o: Observation, b: Boundaries): Estimate
    requires ProbeValid(points, policy, o, b)
  {
    if o.completedHops == o.targetHops && o.truncation.Complete? then Estimate(Exact(o.seen), o.seen, o.seen)
    else if !Extrapolates(policy, o) then Estimate(Probe(o.seen, false), o.seen, points)
    else
      var hops := o.targetHops - o.completedHops;
      var lower := Extrapolated(points, o.seen, o.frontier, LowerBranch(o, policy), hops);
      var upper := Extrapolated(points, o.seen, o.frontier, UpperBranch(o, policy), hops);
      BranchesOrdered(o, policy);
      GrowMonotone(Min(o.seen, points), Min(o.frontier, points), LowerBranch(o, policy),
                   Min(o.seen, points), Min(o.frontier, points), UpperBranch(o, policy), hops, points);
      Estimate(Probe(lower + (upper - lower) / 2, DecisionRegion(lower, points, b) == DecisionRegion(upper, points, b)),
        lower, upper)
  }

  lemma {:induction false} BranchesOrdered(o: Observation, policy: ProbePolicy)
    requires o.expanded > 0 && policy.uncertaintyBps <= 10000
    ensures LowerBranch(o, policy) <= BranchBps(o) <= UpperBranch(o, policy)
  {
    hide BranchBps;
    var branch := BranchBps(o);
    var u := policy.uncertaintyBps;
    MulMonotone(10000 - u, 10000, branch);
    MulMonotone(10000, 10000 + u, branch);
    assert branch * (10000 - u) <= branch * 10000 <= branch * (10000 + u);
    DivMonotone(branch * (10000 - u), branch * 10000, 10000);
    CeilMonotone(branch * 10000, branch * (10000 + u), 10000);
  }

  /** What was seen, the lower bound, the estimate, the upper bound and the collection are in order. */
  lemma {:induction false} EstimateOrdered(points: u64, policy: ProbePolicy, o: Observation, b: Boundaries)
    requires ProbeValid(points, policy, o, b)
    ensures var e := ProbeEstimate(points, policy, o, b);
      o.seen <= e.lower <= e.planner.admitted <= e.upper <= points
  {
    hide DecisionRegion, LowerBranch, UpperBranch, Grow;
    if !(o.completedHops == o.targetHops && o.truncation.Complete?) && Extrapolates(policy, o) {
      var hops := o.targetHops - o.completedHops;
      BranchesOrdered(o, policy);
      GrowMonotone(o.seen, o.frontier, LowerBranch(o, policy), o.seen, o.frontier, UpperBranch(o, policy), hops,
        points);
      GrowBounds(o.seen, o.frontier, LowerBranch(o, policy), hops, points);
      GrowBounds(o.seen, o.frontier, UpperBranch(o, policy), hops, points);
    }
  }

  lemma {:induction false} RatioMonotone(low: nat, high: nat, points: nat, bps: nat)
    requires low <= high && RatioBelow(high, points, bps)
    ensures RatioBelow(low, points, bps)
  {
  }

  /** A probe that is called conclusive leaves every count of its interval in one planner region, and one
      that extrapolates is called conclusive whenever that is so. */
  lemma {:induction false} ConclusiveExact(points: u64, policy: ProbePolicy, o: Observation, b: Boundaries)
    requires ProbeValid(points, policy, o, b)
    ensures var e := ProbeEstimate(points, policy, o, b);
      && (e.planner.Exact? ==> e.lower == e.upper)
      && (e.planner.Probe? && Extrapolates(policy, o) ==>
            (e.planner.conclusive <==>
             forall c: nat :: e.lower <= c <= e.upper ==>
               DecisionRegion(c, points, b) == DecisionRegion(e.lower, points, b)))
      && (e.planner.Probe? && !Extrapolates(policy, o) ==> !e.planner.conclusive)
  {
    hide LowerBranch, UpperBranch, Extrapolated, RatioBelow;
    var e := ProbeEstimate(points, policy, o, b);
    EstimateOrdered(points, policy, o, b);
    if e.planner.Probe? && Extrapolates(policy, o) && e.planner.conclusive {
      forall c: nat | e.lower <= c <= e.upper ensures DecisionRegion(c, points, b)
        == DecisionRegion(e.lower, points, b) {
        RegionBetween(e.lower, c, e.upper, points, b);
      }
    }
  }

  lemma {:induction false} RegionBetween(low: nat, c: nat, high: nat, points: nat, b: Boundaries)
    requires low <= c <= high && DecisionRegion(low, points, b) == DecisionRegion(high, points, b)
    ensures DecisionRegion(c, points, b) == DecisionRegion(low, points, b)
  {
    hide RatioBelow;
    if b.floorBps.Some? {
      BetweenBelow(low, c, high, points, b.floorBps.value);
    }
    if b.p5MinBps.Some? {
      BetweenBelow(low, c, high, points, b.p5MinBps.value);
    }
  }

  lemma {:induction false} BetweenBelow(low: nat, c: nat, high: nat, points: nat, bps: nat)
    requires low <= c <= high
    ensures RatioBelow(high, points, bps) ==> RatioBelow(c, points, bps)
    ensures RatioBelow(c, points, bps) ==> RatioBelow(low, points, bps)
  {
    if RatioBelow(high, points, bps) {
      RatioMonotone(c, high, points, bps);
    }
    if RatioBelow(c, points, bps) {
      RatioMonotone(low, c, points, bps);
    }
  }

  /** `estimate_bounded_probe` in 128-bit saturating arithmetic. An invalid probe is refused. */
  method EstimateBoundedProbe(
    points: u64, policy: ProbePolicy, o: Observation, b: Boundaries) returns (r: Result<Estimate>)
    ensures r == if ProbeValid(points, policy, o, b) then Ok(ProbeEstimate(points, policy, o, b)) else Err
  {
    hide Grow, DecisionRegion, CeilDiv;
    if !ProbeValid(points, policy, o, b) {
      return Err;
    }
    var seen := Min(o.seen, points);
    if o.completedHops == o.targetHops && o.truncation.Complete? {
      return Ok(Estimate(Exact(seen), seen, seen));
    }
    var allowedStop := o.truncation.Complete? || (o.truncation.Edges? && o.edgesExamined == policy.edgeBudget);
    if !allowedStop || o.expanded < policy.minExpanded {
      return Ok(Estimate(Probe(seen, false), seen, points));
    }
    var branch := SaturatingMul(o.discovered, 10000) / o.expanded;
    BranchFits(o, policy);
    var lowerBranch := SaturatingMul(branch, 10000 - policy.uncertaintyBps) / 10000;
    var upperBranch := CeilDiv(SaturatingMul(branch, 10000 + policy.uncertaintyBps), 10000);
    var lower := Extrapolate(points, o.seen, o.frontier, lowerBranch, o.targetHops - o.completedHops);
    var upper := Extrapolate(points, o.seen, o.frontier, upperBranch, o.targetHops - o.completedHops);
    EstimateOrdered(points, policy, o, b);
    var conclusive := DecisionRegion(lower, points, b) == DecisionRegion(upper, points, b);
    return Ok(Estimate(Probe(lower + (upper - lower) / 2, conclusive), lower, upper));
  }

  /** The branching factors never reach the saturation point. */
  lemma {:induction false} BranchFits(o: Observation, policy: ProbePolicy)
    requires o.expanded > 0 && policy.uncertaintyBps <= 10000
    ensures o.discovered * 10000 <= U128_MAX
    ensures BranchBps(o) * (10000 - policy.uncertaintyBps) <= U128_MAX
    ensures BranchBps(o) * (10000 + policy.uncertaintyBps) <= U128_MAX
  {
    var u := policy.uncertaintyBps;
    assert BranchBps(o) <= o.discovered * 10000 by {
      QuotientBelow(o.discovered * 10000, o.expanded);
    }
    ProductMonotone(BranchBps(o), 10000 + u, o.discovered * 10000, 20000);
    ProductMonotone(BranchBps(o), 10000 - u, o.discovered * 10000, 20000);
  }

  // ----- Basis-point intervals -----

  /** `specificity_interval_bps`. */
  function SpecificityInterval(e: Estimate, points: u64): Result<(nat, nat)> {
    if points == 0 || e.lower > e.upper || e.upper > points then Err
    else Ok((FloorBps(e.lower, points), CeilBps(e.upper, points)))
  }

  function FloorBps(count: nat, points: nat): nat
    requires points > 0
  {
    SaturatingMul(count, 10000) / points
  }

  function CeilBps(count: nat, points: nat): nat
    requires points > 0
  {
    CeilDiv(SaturatingMul(count, 10000), points)
  }

  /** The interval holds the exact ratio of every count between the bounds, and stays within 0 and 10000
      basis points, so the casts to 16 bits lose nothing. */
  lemma {:induction false} IntervalEncloses(e: Estimate, points: u64, count: nat)
    requires SpecificityInterval(e, points).Ok? && e.lower <= count <= e.upper
    ensures var (low, high) := SpecificityInterval(e, points).value;
      && low * points <= count * 10000 <= high * points
      && low <= high <= 10000
  {
    hide CeilDiv, SaturatingMul;
    var low, high := FloorBps(e.lower, points), CeilBps(e.upper, points);
    BpsFacts(e.lower, points);
    BpsFacts(e.upper, points);
    assert low * points <= e.lower * 10000 <= count * 10000 <= e.upper * 10000 <= high * points;
    Uncross(low, high, points);
    Uncross(high, 10000, points);
  }

  lemma {:induction false} BpsFacts(count: nat, points: nat)
    requires 0 < points && count <= points < U64_LIMIT
    ensures FloorBps(count, points) * points <= count * 10000 <= CeilBps(count, points) * points < count * 10000
      + points
  {
    assert SaturatingMul(count, 10000) == count * 10000;
    FloorFacts(count * 10000, points);
    CeilFacts(count * 10000, points);
  }

  lemma {:induction false} Uncross(a: nat, b: nat, d: nat)
    requires d > 0 && a * d < b * d + d
    ensures a <= b
  {
    if a > b {
      MulMonotone(b + 1, a, d);
    }
  }

  lemma {:induction false} FloorFacts(a: nat, d: nat)
    requires d > 0
    ensures (a / d) * d <= a
  {
    assert a == d * (a / d) + a % d;
  }

  lemma {:induction false} CeilFacts(a: nat, d: nat)
    requires d > 0
    ensures a <= CeilDiv(a, d) * d < a + d
  {
    assert a == d * (a / d) + a % d;
    assert (a / d + 1) * d == d * (a / d) + d;
  }

  // ----- Envelopes -----

  datatype Filters = Filters(statement: bool, node: bool, edge: bool)

  /** Everything an envelope and a query must agree on exactly, apart from the topology. */
  datatype Facts = Facts(
    mode: nat, vectorField: Option<bytes>, metric: nat, dimension: nat,
    graphEpoch: nat, schemaEpoch: nat, manifestGeneration: nat, overlayGeneration: nat,
    direction: nat, typed: bool, filters: Filters,
    plannerPolicy: nat, branchDepthPolicy: nat, targetRecallBps: nat)

  datatype Execution = Execution(
    p3Initial: nat, p3Growth: nat, p3Max: nat,
    p3hDenseInitial: nat, p3hDenseGrowth: nat, p3hDenseMax: nat,
    p3hSparseInitial: nat, p3hSparseGrowth: nat, p3hSparseMax: nat,
    p5MaxExpansions: nat, shadowBps: nat)

  /** `costs` are the eight work coefficients. */
  datatype Envelope = Envelope(
    version: nat, facts: Facts, topology: bytes,
    minHops: nat, maxHops: nat, minBps: nat, maxBps: nat, maxLag: nat, maxK: nat,
    floorBps: Option<nat>, p5MinBps: Option<nat>, p5MaxK: Option<nat>, p5RecallBps: Option<nat>,
    probePolicy: ProbePolicy, costs: seq<nat>, execution: Execution)

  datatype EnvelopeQuery = EnvelopeQuery(facts: Facts, topology: bytes, hops: nat, minBps: nat, maxBps: nat, lag: nat,
    k: nat)

  datatype ProfileQuery = ProfileQuery(facts: Facts, hops: nat, lag: nat, k: nat)

  datatype Profile = Profile(topology: bytes, probePolicy: ProbePolicy, costs: seq<nat>, execution: Execution,
    boundaries: Boundaries)

  datatype Store = Store(version: nat, envelopes: seq<Envelope>)

  predicate NameValid(name: bytes) {
    0 < |name| <= 255 && 0 !in name
  }

  predicate FactsValid(f: Facts) {
    && f.dimension > 0 && (f.vectorField.Some? ==> NameValid(f.vectorField.value))
    && f.graphEpoch > 0 && f.schemaEpoch > 0 && f.plannerPolicy > 0 && f.branchDepthPolicy > 0
    && 5000 <= f.targetRecallBps <= 10000
  }

  predicate ExecutionValid(x: Execution) {
    && x.p3Initial > 0 && x.p3Growth >= 2 && x.p3Max > 0
    && x.p3hDenseInitial > 0 && x.p3hDenseGrowth >= 2 && x.p3hDenseMax > 0
    && x.p3hSparseInitial > 0 && x.p3hSparseGrowth >= 2 && x.p3hSparseMax > 0
    && x.p5MaxExpansions > 0 && x.shadowBps <= 10000
  }

  predicate EnvelopeValid(e: Envelope) {
    && e.version > 0 && FactsValid(e.facts) && NameValid(e.topology)
    && 0 < e.minHops <= e.maxHops <= MAX_GRAPH_DEPTH
    && e.minBps <= e.maxBps <= 10000 && e.maxK > 0
    && BoundaryFits(e.floorBps) && BoundaryFits(e.p5MinBps) && BoundaryFits(e.p5RecallBps)
    && e.p5MinBps.Some? == e.p5MaxK.Some? && (e.p5MaxK.Some? ==> e.p5MaxK.value > 0)
    && (e.p5MinBps.None? ==> e.p5RecallBps.None?)
    && e.probePolicy.edgeBudget > 0 && e.probePolicy.minExpanded > 0 && e.probePolicy.uncertaintyBps <= 10000
    && |e.costs| == 8 && 0 !in e.costs
    && ExecutionValid(e.execution)
    && e.maxK <= e.execution.p3Max && e.maxK <= e.execution.p3hDenseMax && e.maxK <= e.execution.p3hSparseMax
  }

  predicate QueryValid(q: EnvelopeQuery) {
    && FactsValid(q.facts) && NameValid(q.topology) && 0 < q.hops <= MAX_GRAPH_DEPTH
    && q.minBps <= q.maxBps <= 10000 && q.k > 0
  }

  predicate ProfileQueryValid(q: ProfileQuery) {
    FactsValid(q.facts) && 0 < q.hops <= MAX_GRAPH_DEPTH && q.k > 0
  }

  predicate MatchesProfile(e: Envelope, q: ProfileQuery) {
    e.facts == q.facts && e.minHops <= q.hops <= e.maxHops && q.lag <= e.maxLag && q.k <= e.maxK
  }

  predicate Matches(e: Envelope, q: EnvelopeQuery) {
    && MatchesProfile(e, ProfileQuery(q.facts, q.hops, q.lag, q.k))
    && e.topology == q.topology && e.minBps <= q.minBps && q.maxBps <= e.maxBps
  }

  function ProfileOf(e: Envelope): Profile {
    Profile(e.topology, e.probePolicy, e.costs, e.execution, Boundaries(e.floorBps, e.p5MinBps))
  }

  predicate RangesOverlap(minA: nat, maxA: nat, minB: nat, maxB: nat) {
    minA <= maxB && minB <= maxA
  }

  predicate DomainOverlaps(a: Envelope, b: Envelope) {
    a.facts == b.facts && RangesOverlap(a.minHops, a.maxHops, b.minHops, b.maxHops)
  }

  predicate Overlaps(a: Envelope, b: Envelope) {
    && DomainOverlaps(a, b) && a.topology == b.topology
    && RangesOverlap(a.minBps, a.maxBps, b.minBps, b.maxBps)
  }

  /** The test of one pair of envelopes. */
  predicate PairSound(a: Envelope, b: Envelope) {
    !(DomainOverlaps(a, b) && ProfileOf(a) != ProfileOf(b)) && !Overlaps(a, b)
  }

  /** Some query the store answers would match both envelopes, or their profiles would disagree. */
  ghost predicate Ambiguous(a: Envelope, b: Envelope) {
    || (exists q :: QueryValid(q) && Matches(a, q) && Matches(b, q))
    || (&& ProfileOf(a) != ProfileOf(b)
        && exists q :: ProfileQueryValid(q) && MatchesProfile(a, q) && MatchesProfile(b, q))
  }

  /** Between valid envelopes the pairwise test fails exactly when some query would be ambiguous. */
  lemma {:induction false} PairExact(a: Envelope, b: Envelope)
    requires EnvelopeValid(a) && EnvelopeValid(b)
    ensures PairSound(a, b) <==> !Ambiguous(a, b)
  {
    var hops := if a.minHops <= b.minHops then b.minHops else a.minHops;
    var bps := if a.minBps <= b.minBps then b.minBps else a.minBps;
    if DomainOverlaps(a, b) && ProfileOf(a) != ProfileOf(b) {
      var q := ProfileQuery(a.facts, hops, 0, 1);
      assert ProfileQueryValid(q) && MatchesProfile(a, q) && MatchesProfile(b, q);
    }
    if Overlaps(a, b) {
      var q := EnvelopeQuery(a.facts, a.topology, hops, bps, bps, 0, 1);
      assert QueryValid(q) && Matches(a, q) && Matches(b, q);
    }
  }

  predicate VersionsUnique(es: seq<Envelope>) {
    forall i, j :: 0 <= i < j < |es| ==> es[i].version != es[j].version
  }

  predicate PairsSound(es: seq<Envelope>) {
    forall i, j :: 0 <= i < j < |es| ==> PairSound(es[i], es[j])
  }

  predicate StoreValid(s: Store) {
    && s.version > 0 && |s.envelopes| <= MAX_ENVELOPES
    && (forall i :: 0 <= i < |s.envelopes| ==> EnvelopeValid(s.envelopes[i]))
    && VersionsUnique(s.envelopes) && PairsSound(s.envelopes)
  }

  ghost predicate Unambiguous(es: seq<Envelope>) {
    forall i, j :: 0 <= i < j < |es| ==> !Ambiguous(es[i], es[j])
  }

  /** A store of valid envelopes passes the pairwise scan exactly when no query is ambiguous on it. */
  lemma {:induction false} ScanExact(es: seq<Envelope>)
    requires forall i :: 0 <= i < |es| ==> EnvelopeValid(es[i])
    ensures PairsSound(es) <==> Unambiguous(es)
  {
    hide PairSound, Ambiguous, EnvelopeValid;
    forall i, j | 0 <= i < j < |es| ensures PairSound(es[i], es[j]) <==> !Ambiguous(es[i], es[j]) {
      PairExact(es[i], es[j]);
    }
  }

  /** `validate_store`: the set of versions, then every pair. */
  method ValidateStore(s: Store) returns (ok: bool)
    ensures ok == StoreValid(s)
  {
    hide EnvelopeValid, PairSound;
    if s.version == 0 || |s.envelopes| > MAX_ENVELOPES {
      return false;
    }
    var es := s.envelopes;
    var versions: set<nat> := {};
    for i := 0 to |es|
      invariant forall k :: 0 <= k < i ==> EnvelopeValid(es[k])
      invariant forall v :: v in versions <==> exists k :: 0 <= k < i && es[k].version == v
      invariant VersionsUnique(es[..i])
    {
      if !EnvelopeValid(es[i]) {
        return false;
      }
      if es[i].version in versions {
        ghost var k :| 0 <= k < i && es[k].version == es[i].version;
        assert !VersionsUnique(es);
        return false;
      }
      versions := versions + {es[i].version};
      assert es[..i + 1] == es[..i] + [es[i]];
    }
    assert es[..|es|] == es;
    for i := 0 to |es|
      invariant forall a, b :: 0 <= a < i && a < b < |es| ==> PairSound(es[a], es[b])
    {
      for j := i + 1 to |es|
        invariant forall b :: i < b < j ==> PairSound(es[i], es[b])
      {
        if !PairSound(es[i], es[j]) {
          return false;
        }
      }
    }
    return true;
  }

  /** `lookup`: Err for an invalid query or two matches, else the only match if there is one. */
  method Lookup(s: Store, q: EnvelopeQuery) returns (r: Result<Option<Envelope>>)
    ensures !QueryValid(q) ==> r.Err?
    ensures QueryValid(q) && StoreValid(s) ==> r.Ok?
    ensures r.Ok? && r.value.None? ==> forall e :: e in s.envelopes ==> !Matches(e, q)
    ensures r.Ok? && r.value.Some? ==>
      && r.value.value in s.envelopes && Matches(r.value.value, q)
      && forall e :: e in s.envelopes && Matches(e, q) ==> e == r.value.value
  {
    hide EnvelopeValid, FactsValid;
    if !QueryValid(q) {
      return Err;
    }
    var es := s.envelopes;
    var found: Option<Envelope> := None;
    ghost var at := 0;
    for i := 0 to |es|
      invariant found.None? ==> forall k :: 0 <= k < i ==> !Matches(es[k], q)
      invariant found.Some? ==> 0 <= at < i && es[at] == found.value && Matches(es[at], q)
      invariant found.Some? ==> forall k :: 0 <= k < i && k != at ==> !Matches(es[k], q)
    {
      if Matches(es[i], q) {
        if found.Some? {
          assert !StoreValid(s) by {
            TwoMatches(es[at], es[i], q);
          }
          return Err;
        }
        found, at := Some(es[i]), i;
      }
    }
    return Ok(found);
  }

  lemma {:induction false} TwoMatches(a: Envelope, b: Envelope, q: EnvelopeQuery)
    requires QueryValid(q) && Matches(a, q) && Matches(b, q)
    ensures !PairSound(a, b)
  {
  }

  /** `profile`: Err for an invalid query or a disagreement, else the profile all matches share. */
  method LookupProfile(s: Store, q: ProfileQuery) returns (r: Result<Option<Profile>>)
    ensures !ProfileQueryValid(q) ==> r.Err?
    ensures ProfileQueryValid(q) && StoreValid(s) ==> r.Ok?
    ensures r.Ok? ==> (r.value.None? <==> forall e :: e in s.envelopes ==> !MatchesProfile(e, q))
    ensures r.Ok? && r.value.Some? ==> forall e :: e in s.envelopes && MatchesProfile(e, q) ==>
      var p := r.value.value;
      && p.topology == e.topology && p.probePolicy == e.probePolicy && p.costs == e.costs
      && p.execution == e.execution
      && p.boundaries.floorBps == e.floorBps && p.boundaries.p5MinBps == e.p5MinBps
  {
    hide EnvelopeValid, FactsValid;
    if !ProfileQueryValid(q) {
      return Err;
    }
    var es := s.envelopes;
    var found: Option<Profile> := None;
    ghost var at := 0;
    for i := 0 to |es|
      invariant found.None? ==> forall k :: 0 <= k < i ==> !MatchesProfile(es[k], q)
      invariant found.Some? ==> 0 <= at < i && MatchesProfile(es[at], q) && ProfileOf(es[at]) == found.value
      invariant found.Some? ==> forall k :: 0 <= k < i && MatchesProfile(es[k], q) ==> ProfileOf(es[k]) == found.value
    {
      if MatchesProfile(es[i], q) {
        if found.Some? && ProfileOf(es[i]) != found.value {
          assert !StoreValid(s) by {
            assert !PairSound(es[at], es[i]);
          }
          return Err;
        }
        found, at := Some(ProfileOf(es[i])), i;
      }
    }
    return Ok(found);
  }

  /** An envelope found for an estimate's interval covers the exact ratio of every count in the estimate. */
  lemma {:induction false} MatchCovers(e: Envelope, q: EnvelopeQuery, est: Estimate, points: u64, count: nat)
    requires SpecificityInterval(est, points).Ok? && est.lower <= count <= est.upper
    requires SpecificityInterval(est, points).value == (q.minBps, q.maxBps) && Matches(e, q)
    ensures e.minBps * points <= count * 10000 <= e.maxBps * points
  {
    hide SpecificityInterval;
    IntervalEncloses(est, points, count);
    MulMonotone(e.minBps, q.minBps, points);
    MulMonotone(q.maxBps, e.maxBps, points);
  }
}
