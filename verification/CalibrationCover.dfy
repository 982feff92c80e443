/** What the tests of `graph_estimator.rs` on probes and calibration envelopes mean
    for the numbers they compare: planner regions as ratios, and an envelope that
    answers a query as one whose calibrated ranges hold everything the query asks about. */
module CalibrationCover {
  import opened Wrappers
  import opened Bytes
  import opened Estimator

  // ----- Planner regions -----

  function Ratio(count: nat, points: nat): real
    requires points > 0
  {
    count as real / points as real
  }

  lemma {:induction false} RatioCompares(a: nat, b: nat, c: nat, d: nat)
    requires b > 0 && d > 0
    ensures a * d < c * b <==> Ratio(a, b) < Ratio(c, d)
    ensures a * d <= c * b <==> Ratio(a, b) <= Ratio(c, d)
  {
    var x, y := Ratio(a, b), Ratio(c, d);
    var p, q := b as real, d as real;
    assert x * p == a as real && y * q == c as real;
    assert (a * d) as real == x * p * q && (c * b) as real == y * q * p;
    var w := p * q;
    assert w > 0.0;
    assert x * p * q == x * w && y * q * p == y * w;
    Scaled(x, y, w);
  }

  lemma {:induction false} Scaled(x: real, y: real, w: real)
    requires w > 0.0
    ensures x < y <==> x * w < y * w
    ensures x <= y <==> x * w <= y * w
  {
    if x < y {
      assert (y - x) * w > 0.0;
    } else if y < x {
      assert (x - y) * w > 0.0;
    }
  }

  /** The exact scan is for at most 5000 candidates that are at most a twentieth of the collection; below the floor
      means a smaller share than the floor; a candidate for the fifth plan has at least its least share. */
  lemma {:induction false} RegionMeans(admitted: nat, points: nat, b: Boundaries)
    requires points > 0
    ensures var r := DecisionRegion(admitted, points, b);
      && (r.exactScan <==> admitted <= 5000 && Ratio(admitted, points) <= Ratio(1, 20))
      && (r.belowFloor <==> b.floorBps.Some? && Ratio(admitted, points) < Ratio(b.floorBps.value, 10000))
      && (r.p5Candidate <==> b.p5MinBps.Some? && Ratio(admitted, points) >= Ratio(b.p5MinBps.value, 10000))
  {
    hide Ratio;
    RatioCompares(admitted, points, 1, 20);
    if b.floorBps.Some? {
      RatioCompares(admitted, points, b.floorBps.value, 10000);
    }
    if b.p5MinBps.Some? {
      RatioCompares(admitted, points, b.p5MinBps.value, 10000);
    }
  }

  // ----- Probes -----

  /** A policy that lets a probe look at something and is not more than wholly uncertain. */
  predicate Usable(policy: ProbePolicy) {
    policy.edgeBudget >= 1 && policy.minExpanded >= 1 && policy.uncertaintyBps <= 10000
  }

  /** Counts a probe within its budget can bring back from a collection of this size. */
  predicate Possible(points: u64, budget: u64, o: Observation) {
    && 1 <= o.targetHops <= 16 && o.completedHops <= o.targetHops
    && o.frontier <= o.seen <= points && o.expanded <= points
    && o.discovered <= o.edgesExamined <= budget
    && (o.truncation.Edges? && o.completedHops < o.targetHops ==> o.expanded >= 1)
  }

  /** A probe is estimated exactly if the collection is not empty, the policy can be used, the counts are possible and
      the boundaries are shares of the whole. */
  lemma {:induction false} ProbeAccepted(points: u64, policy: ProbePolicy, o: Observation, b: Boundaries)
    ensures ProbeValid(points, policy, o, b) <==>
      && points >= 1 && Usable(policy) && Possible(points, policy.edgeBudget, o)
      && (b.floorBps.Some? ==> Ratio(b.floorBps.value, 10000) <= 1.0)
      && (b.p5MinBps.Some? ==> Ratio(b.p5MinBps.value, 10000) <= 1.0)
  {
  }

  /** Every estimate of an accepted probe has a specificity interval. */
  lemma {:induction false} EstimateHasInterval(points: u64, policy: ProbePolicy, o: Observation, b: Boundaries)
    requires ProbeValid(points, policy, o, b)
    ensures SpecificityInterval(ProbeEstimate(points, policy, o, b), points).Ok?
  {
    hide ProbeEstimate;
    EstimateOrdered(points, policy, o, b);
  }

  // ----- Envelopes -----

  /** A name of 1 to 255 bytes, none of them zero. */
  predicate Named(name: bytes) {
    1 <= |name| < 256 && forall i :: 0 <= i < |name| ==> name[i] != 0
  }

  /** A setting with a dimension, epochs and policies of its own, and a recall target from a half to the whole. */
  predicate Setting(f: Facts) {
    && (f.vectorField.Some? ==> Named(f.vectorField.value))
    && 1 <= f.dimension && 1 <= f.graphEpoch && 1 <= f.schemaEpoch && 1 <= f.plannerPolicy && 1 <= f.branchDepthPolicy
    && Ratio(1, 2) <= Ratio(f.targetRecallBps, 10000) <= 1.0
  }

  /** A search that starts with something, at least doubles, and may reach this many results. */
  predicate Grows(initial: nat, growth: nat, most: nat, k: nat) {
    1 <= initial && 2 <= growth && 1 <= most && k <= most
  }

  predicate Share(bps: Option<nat>) {
    bps.Some? ==> Ratio(bps.value, 10000) <= 1.0
  }

  lemma {:induction false} NamedExact(name: bytes)
    ensures NameValid(name) <==> Named(name)
  {
    assert 0 in name <==> exists i :: 0 <= i < |name| && name[i] == 0;
  }

  lemma {:induction false} SettingExact(f: Facts)
    ensures FactsValid(f) <==> Setting(f)
  {
    hide NameValid, Named, Ratio;
    RatioCompares(1, 2, f.targetRecallBps, 10000);
    RatioCompares(f.targetRecallBps, 10000, 1, 1);
    assert Ratio(1, 1) == 1.0 by { UnitRatio(); }
    if f.vectorField.Some? {
      NamedExact(f.vectorField.value);
    }
  }

  lemma {:induction false} UnitRatio()
    ensures Ratio(1, 1) == 1.0
  {
  }

  lemma {:induction false} ShareExact(bps: Option<nat>)
    ensures BoundaryFits(bps) <==> Share(bps)
  {
  }

  /** An envelope is accepted exactly if it names a proper setting and topology, its ranges are not empty and lie within
      16 hops and the whole, its shares are shares, the fifth plan has a size exactly if it has a least share and a
      recall only then, its probe policy can be used, all eight costs count, and every search it allows can reach its
      size. */
  lemma {:induction false} EnvelopeAccepted(e: Envelope)
    ensures EnvelopeValid(e) <==>
      && 1 <= e.version && Setting(e.facts) && Named(e.topology)
      && 1 <= e.minHops <= e.maxHops <= 16
      && e.minBps <= e.maxBps && Share(Some(e.maxBps))
      && 1 <= e.maxK
      && Share(e.floorBps) && Share(e.p5MinBps) && Share(e.p5RecallBps)
      && (e.p5MinBps.Some? <==> e.p5MaxK.Some?) && (e.p5MaxK.Some? ==> 1 <= e.p5MaxK.value)
      && (e.p5RecallBps.Some? ==> e.p5MinBps.Some?)
      && Usable(e.probePolicy)
      && |e.costs| == 8 && (forall i :: 0 <= i < 8 ==> 1 <= e.costs[i])
      && Grows(e.execution.p3Initial, e.execution.p3Growth, e.execution.p3Max, e.maxK)
      && Grows(e.execution.p3hDenseInitial, e.execution.p3hDenseGrowth, e.execution.p3hDenseMax, e.maxK)
      && Grows(e.execution.p3hSparseInitial, e.execution.p3hSparseGrowth, e.execution.p3hSparseMax, e.maxK)
      && 1 <= e.execution.p5MaxExpansions && Share(Some(e.execution.shadowBps))
  {
    hide FactsValid, Setting, NameValid, Named, BoundaryFits, Share;
    SettingExact(e.facts);
    NamedExact(e.topology);
    ShareExact(e.floorBps);
    ShareExact(e.p5MinBps);
    ShareExact(e.p5RecallBps);
    WholeShare(e.maxBps);
    WholeShare(e.execution.shadowBps);
    assert 0 in e.costs <==> exists i :: 0 <= i < |e.costs| && e.costs[i] == 0;
  }

  lemma {:induction false} WholeShare(bps: nat)
    ensures Share(Some(bps)) <==> bps <= 10000
  {
  }

  /** A query is accepted exactly if it names a proper setting and topology, 1 to 16 hops, a range within the whole, and
      asks for something. */
  lemma {:induction false} QueryAccepted(q: EnvelopeQuery)
    ensures QueryValid(q) <==>
      && Setting(q.facts) && Named(q.topology) && 1 <= q.hops <= 16
      && q.minBps <= q.maxBps && Share(Some(q.maxBps)) && 1 <= q.k
    ensures ProfileQueryValid(ProfileQuery(q.facts, q.hops, q.lag, q.k)) <==>
      Setting(q.facts) && 1 <= q.hops <= 16 && 1 <= q.k
  {
    hide FactsValid, Setting, NameValid, Named, Share;
    SettingExact(q.facts);
    NamedExact(q.topology);
    WholeShare(q.maxBps);
  }

  /** The envelope was calibrated in the setting of the query, and its ranges hold the query's hops, lag and size. */
  predicate Calibrated(e: Envelope, facts: Facts, hops: nat, lag: nat, k: nat) {
    && e.facts.mode == facts.mode && e.facts.vectorField == facts.vectorField && e.facts.metric == facts.metric
    && e.facts.dimension == facts.dimension
    && e.facts.graphEpoch == facts.graphEpoch && e.facts.schemaEpoch == facts.schemaEpoch
    && e.facts.manifestGeneration == facts.manifestGeneration && e.facts.overlayGeneration == facts.overlayGeneration
    && e.facts.direction == facts.direction && e.facts.typed == facts.typed && e.facts.filters == facts.filters
    && e.facts.plannerPolicy == facts.plannerPolicy && e.facts.branchDepthPolicy == facts.branchDepthPolicy
    && e.facts.targetRecallBps == facts.targetRecallBps
    && e.minHops <= hops <= e.maxHops && lag <= e.maxLag && k <= e.maxK
  }

  predicate Within(low: nat, x: nat, high: nat) {
    low <= x <= high
  }

  /** An envelope answers a query exactly if it was calibrated for it, in its topology, and over every specificity the
      query may have. */
  lemma {:induction false} MatchExact(e: Envelope, q: EnvelopeQuery)
    requires QueryValid(q)
    ensures Matches(e, q) <==>
      && Calibrated(e, q.facts, q.hops, q.lag, q.k)
      && e.topology == q.topology
      && forall bps :: Within(q.minBps, bps, q.maxBps) ==> Within(e.minBps, bps, e.maxBps)
  {
    assert Within(q.minBps, q.minBps, q.maxBps) && Within(q.minBps, q.maxBps, q.maxBps);
    if Calibrated(e, q.facts, q.hops, q.lag, q.k) {
      assert e.facts == q.facts;
    }
  }

  lemma {:induction false} ProfileMatchExact(e: Envelope, q: ProfileQuery)
    ensures MatchesProfile(e, q) <==> Calibrated(e, q.facts, q.hops, q.lag, q.k)
  {
    if Calibrated(e, q.facts, q.hops, q.lag, q.k) {
      assert e.facts == q.facts;
    }
  }

  /** A valid envelope answers some valid query: its ranges are not empty. */
  lemma {:induction false} EnvelopeUsable(e: Envelope)
    requires EnvelopeValid(e)
    ensures exists q :: QueryValid(q) && Matches(e, q)
    ensures exists q :: ProfileQueryValid(q) && MatchesProfile(e, q)
  {
    hide ExecutionValid;
    var q := EnvelopeQuery(e.facts, e.topology, e.minHops, e.minBps, e.maxBps, e.maxLag, e.maxK);
    assert QueryValid(q) && Matches(e, q);
    var p := ProfileQuery(e.facts, e.minHops, e.maxLag, e.maxK);
    assert ProfileQueryValid(p) && MatchesProfile(e, p);
  }
}
