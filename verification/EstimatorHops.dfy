/** What an extrapolated estimate of `graph_estimator.rs` adds up: for every hop
    the probe did not make, the frontier before it times the branching factor,
    rounded up and never more than the collection. */
module EstimatorHops {
  import opened Wrappers
  import opened Bytes
  import opened Estimator

  predicate IsFloor(x: nat, d: nat, q: nat) {
    q * d <= x < (q + 1) * d
  }

  predicate IsCeil(x: nat, d: nat, q: nat) {
    x <= q * d && (q > 0 ==> (q - 1) * d < x)
  }

  /** The frontier after one hop: the least number whose ten thousandfold covers the product, or the collection. */
  predicate IsHop(from: nat, branchBps: nat, points: nat, to: nat) {
    && to <= points
    && (to < points ==> from * branchBps <= to * 10000)
    && (to > 0 ==> (to - 1) * 10000 < from * branchBps)
  }

  /** The frontiers, hop after hop. */
  predicate Hops(points: nat, frontier: nat, branchBps: nat, hops: nat, fs: seq<nat>) {
    && |fs| == hops + 1
    && fs[0] == frontier
    && forall i :: 0 <= i < hops ==> IsHop(fs[i], branchBps, points, fs[i + 1])
  }

  function Added(fs: seq<nat>): nat {
    if fs == [] then 0 else fs[0] + Added(fs[1..])
  }

  lemma {:induction false} CeilIs(x: nat, d: nat)
    requires d > 0
    ensures IsCeil(x, d, CeilDiv(x, d))
  {
    assert x == d * (x / d) + x % d;
    assert (x / d + 1) * d == d * (x / d) + d;
  }

  lemma {:induction false} FloorIs(x: nat, d: nat)
    requires d > 0
    ensures IsFloor(x, d, x / d)
  {
    assert x == d * (x / d) + x % d;
    assert (x / d + 1) * d == d * (x / d) + d;
  }

  lemma {:induction false} HopIs(from: nat, branchBps: nat, points: nat)
    ensures IsHop(from, branchBps, points, NextFrontier(from, branchBps, points))
  {
    hide CeilDiv;
    var x := from * branchBps;
    var q := CeilDiv(x, 10000);
    CeilIs(x, 10000);
  }

  lemma {:induction false} GrowExact(
    total: nat, next: nat, branchBps: nat, hops: nat, points: nat) returns (fs: seq<nat>)
    requires total <= points
    ensures Hops(points, next, branchBps, hops, fs)
    ensures Grow(total, next, branchBps, hops, points) == Min(total + Added(fs[1..]), points)
    decreases hops
  {
    hide NextFrontier, IsHop;
    if hops == 0 {
      fs := [next];
    } else {
      var next' := NextFrontier(next, branchBps, points);
      HopIs(next, branchBps, points);
      var rest := GrowExact(Min(total + next', points), next', branchBps, hops - 1, points);
      fs := [next] + rest;
      assert fs[1..] == rest;
      forall i | 0 <= i < hops ensures IsHop(fs[i], branchBps, points, fs[i + 1]) {
        assert fs[i + 1] == rest[i] && (i > 0 ==> fs[i] == rest[i - 1]);
      }
    }
  }

  /** A hop and a list of hops are determined by where they start. */
  lemma {:induction false} HopOnce(from: nat, branchBps: nat, points: nat, a: nat, b: nat)
    requires IsHop(from, branchBps, points, a) && IsHop(from, branchBps, points, b)
    ensures a == b
  {
    hide IsHop;
    HopBelow(from, branchBps, points, a, b);
    HopBelow(from, branchBps, points, b, a);
  }

  lemma {:induction false} HopBelow(from: nat, branchBps: nat, points: nat, a: nat, b: nat)
    requires IsHop(from, branchBps, points, a) && IsHop(from, branchBps, points, b)
    ensures a <= b
  {
    var product := from * branchBps;
    assert a > 0 ==> (a - 1) * 10000 < product;
  }

  lemma {:induction false} HopsOnce(
    points: nat, frontier: nat, branchBps: nat, hops: nat, fs: seq<nat>, gs: seq<nat>, i: nat)
    requires Hops(points, frontier, branchBps, hops, fs) && Hops(points, frontier, branchBps, hops, gs) && i <= hops
    ensures fs[i] == gs[i]
  {
    hide IsHop;
    if i > 0 {
      HopsOnce(points, frontier, branchBps, hops, fs, gs, i - 1);
      HopOnce(fs[i - 1], branchBps, points, fs[i], gs[i]);
    }
  }

  /** What the probe measured and how far it may be off. */
  predicate Branches(policy: ProbePolicy, o: Observation, branch: nat, low: nat, high: nat) {
    && policy.uncertaintyBps <= 10000
    && IsFloor(o.discovered * 10000, o.expanded, branch)
    && IsFloor(branch * (10000 - policy.uncertaintyBps), 10000, low)
    && IsCeil(branch * (10000 + policy.uncertaintyBps), 10000, high)
  }

  lemma {:induction false} BranchesAre(policy: ProbePolicy, o: Observation)
    requires o.expanded > 0 && policy.uncertaintyBps <= 10000
    ensures Branches(policy, o, BranchBps(o), LowerBranch(o, policy), UpperBranch(o, policy))
  {
    hide IsFloor, IsCeil, CeilDiv;
    FloorIs(o.discovered * 10000, o.expanded);
    FloorIs(BranchBps(o) * (10000 - policy.uncertaintyBps), 10000);
    CeilIs(BranchBps(o) * (10000 + policy.uncertaintyBps), 10000);
  }

  /** An extrapolated estimate: both bounds are what was seen plus one frontier for every hop the probe did not make,
      with the branching factor lowered and raised by the uncertainty, and the estimate is their midpoint. Any other
      estimate is the exact count, or everything between what was seen and the collection. */
  lemma {:induction false} ProbeExact(points: u64, policy: ProbePolicy, o: Observation, b: Boundaries)
    returns (branch: nat, low: nat, high: nat, lows: seq<nat>, highs: seq<nat>)
    requires ProbeValid(points, policy, o, b)
    ensures var e := ProbeEstimate(points, policy, o, b);
      if o.completedHops == o.targetHops && o.truncation.Complete? then e == Estimate(Exact(o.seen), o.seen, o.seen)
      else if o.expanded < policy.minExpanded || o.truncation.Other?
        || (o.truncation.Edges? && o.edgesExamined < policy.edgeBudget)
      then e == Estimate(Probe(o.seen, false), o.seen, points)
      else
        && Branches(policy, o, branch, low, high)
        && Hops(points, o.frontier, low, o.targetHops - o.completedHops, lows)
        && Hops(points, o.frontier, high, o.targetHops - o.completedHops, highs)
        && e.lower == Min(o.seen + Added(lows[1..]), points)
        && e.upper == Min(o.seen + Added(highs[1..]), points)
        && e.lower <= e.upper
        && e.planner.Probe? && e.planner.admitted == (e.lower + e.upper) / 2
  {
    hide DecisionRegion, BranchBps, LowerBranch, UpperBranch, Grow, Branches, IsHop;
    branch, low, high, lows, highs := 0, 0, 0, [], [];
    if !(o.completedHops == o.targetHops && o.truncation.Complete?) && Extrapolates(policy, o) {
      var hops := o.targetHops - o.completedHops;
      branch, low, high := BranchBps(o), LowerBranch(o, policy), UpperBranch(o, policy);
      BranchesAre(policy, o);
      EstimateOrdered(points, policy, o, b);
      lows := GrowExact(o.seen, o.frontier, low, hops, points);
      highs := GrowExact(o.seen, o.frontier, high, hops, points);
    }
  }
}
