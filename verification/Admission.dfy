/** Admission control of `graph_admission.rs`: reservations of memory and cold
    bytes, bounded in total and shared fairly between tenants and between
    collections. Outstanding permits are part of the state, so that what the
    pool's counters stand for can be said. */
module Admission {
  import opened Wrappers
  import opened Bytes

  datatype Reservation = Reservation(memory: nat, cold: nat)

  const NOTHING: Reservation := Reservation(0, 0)

  /** Tenants and collections are identified by numbers. */
  datatype Waiter = Waiter(ticket: u64, tenant: nat, collection: nat, requested: Reservation)

  datatype Permit = Permit(tenant: nat, collection: nat, reserved: Reservation)

  datatype Pool = Pool(used: Reservation, byTenant: map<nat, Reservation>, byCollection: map<nat, Reservation>,
                       nextTicket: u64, queue: seq<Waiter>, permits: seq<Permit>)

  const EMPTY: Pool := Pool(NOTHING, map[], map[], 0, [], [])

  // ----- Arithmetic of the source -----

  function SaturatingAdd(a: nat, b: nat): nat {
    if a + b < U64_LIMIT then a + b else U64_LIMIT - 1
  }

  function AddTo(target: Reservation, amount: Reservation): Reservation {
    Reservation(SaturatingAdd(target.memory, amount.memory), SaturatingAdd(target.cold, amount.cold))
  }

  /** None where the source would abort on an underflow. */
  function SubtractFrom(target: Reservation, amount: Reservation): Option<Reservation> {
    if amount.memory <= target.memory && amount.cold <= target.cold
    then Some(Reservation(target.memory - amount.memory, target.cold - amount.cold)) else None
  }

  function AddToMap(m: map<nat, Reservation>, key: nat, amount: Reservation): map<nat, Reservation> {
    m[key := AddTo(if key in m then m[key] else NOTHING, amount)]
  }

  /** None where the source would abort on a missing key or an underflow; a key whose usage reaches nothing is
      dropped. */
  function SubtractFromMap(m: map<nat, Reservation>, key: nat, amount: Reservation): Option<map<nat, Reservation>> {
    if key !in m then None
    else
      match SubtractFrom(m[key], amount)
      case None => None
      case Some(left) => Some(if left == NOTHING then m - {key} else m[key := left])
  }

  // ----- Who may enter -----

  predicate FitsTotal(used: Reservation, requested: Reservation, capacity: Reservation) {
    && SaturatingAdd(used.memory, requested.memory) <= capacity.memory
    && SaturatingAdd(used.cold, requested.cold) <= capacity.cold
  }

  predicate WithinShare(current: nat, requested: nat, capacity: nat, contenders: nat)
    requires contenders > 0
  {
    requested == 0 || SaturatingAdd(current, requested) <= capacity / contenders
  }

  function KeysInUse(inUse: map<nat, Reservation>, amount: Reservation -> nat): set<nat> {
    set k | k in inUse && amount(inUse[k]) > 0
  }

  function KeysQueued(queue: seq<Waiter>, keyOf: Waiter -> nat, amount: Reservation -> nat): set<nat> {
    set i | 0 <= i < |queue| && amount(queue[i].requested) > 0 :: keyOf(queue[i])
  }

  /** Keys in use or in the queue with an amount of the resource. */
  function Contenders(
    queue: seq<Waiter>, inUse: map<nat, Reservation>, keyOf: Waiter -> nat, amount: Reservation -> nat): set<nat> {
    KeysInUse(inUse, amount) + KeysQueued(queue, keyOf, amount)
  }

  function ContenderCount(
    queue: seq<Waiter>, inUse: map<nat, Reservation>, keyOf: Waiter -> nat, amount: Reservation -> nat): (n: nat)
    ensures n > 0
  {
    var n := |Contenders(queue, inUse, keyOf, amount)|;
    if n == 0 then 1 else n
  }

  predicate FitsFairShare(
    w: Waiter, queue: seq<Waiter>, inUse: map<nat, Reservation>, capacity: Reservation, keyOf: Waiter -> nat) {
    var current := if keyOf(w) in inUse then inUse[keyOf(w)] else NOTHING;
    && WithinShare(current.memory, w.requested.memory, capacity.memory,
      ContenderCount(queue, inUse, keyOf, (r: Reservation) => r.memory))
    && WithinShare(current.cold, w.requested.cold, capacity.cold,
      ContenderCount(queue, inUse, keyOf, (r: Reservation) => r.cold))
  }

  predicate Admissible(p: Pool, capacity: Reservation, w: Waiter) {
    && FitsTotal(p.used, w.requested, capacity)
    && FitsFairShare(w, p.queue, p.byTenant, capacity, (x: Waiter) => x.tenant)
    && FitsFairShare(w, p.queue, p.byCollection, capacity, (x: Waiter) => x.collection)
  }

  /** The first index from `from` on, below `n`, at which the test holds. */
  function FirstWhere(n: nat, test: nat -> bool, from: nat): (r: Option<nat>)
    requires from <= n
    ensures r.Some? ==> from <= r.value < n && test(r.value)
    ensures r.Some? ==> forall i :: from <= i < r.value ==> !test(i)
    ensures r.None? ==> forall i :: from <= i < n ==> !test(i)
    decreases n - from
  {
    if from == n then None else if test(from) then Some(from) else FirstWhere(n, test, from + 1)
  }

  predicate AdmissibleAt(p: Pool, capacity: Reservation, i: nat) {
    i < |p.queue| && Admissible(p, capacity, p.queue[i])
  }

  /** The first waiter that may enter, in queue order from `from` on. */
  function FirstAdmissible(p: Pool, capacity: Reservation, from: nat): (r: Option<nat>)
    requires from <= |p.queue|
    ensures r.Some? ==> from <= r.value < |p.queue|
  {
    FirstWhere(|p.queue|, (i: nat) => AdmissibleAt(p, capacity, i), from)
  }

  /** It may enter and nobody before it may; without it nobody may. */
  lemma {:induction false} FirstMayEnter(p: Pool, capacity: Reservation, from: nat)
    requires from <= |p.queue|
    ensures var r := FirstAdmissible(p, capacity, from);
      && (r.Some? ==> Admissible(p, capacity, p.queue[r.value]))
      && (forall i :: from <= i < (if r.Some? then r.value else |p.queue|) ==> !Admissible(p, capacity, p.queue[i]))
  {
    hide Admissible;
    var test := (i: nat) => AdmissibleAt(p, capacity, i);
    var r := FirstWhere(|p.queue|, test, from);
    assert r == FirstAdmissible(p, capacity, from);
    forall i | from <= i < (if r.Some? then r.value else |p.queue|) ensures !Admissible(p, capacity, p.queue[i]) {
      assert !test(i);
    }
  }

  // ----- Operations -----

  /** Refused outright, or appended to the queue. */
  function Enqueue(p: Pool, capacity: Reservation, tenant: nat, collection: nat, requested: Reservation): Pool {
    if requested.memory == 0 || requested.memory > capacity.memory || requested.cold > capacity.cold then p
    else p.(queue := p.queue + [Waiter(p.nextTicket, tenant, collection, requested)],
      nextTicket := (p.nextTicket + 1) % U64_LIMIT)
  }

  function RemoveAt<T>(s: seq<T>, i: nat): seq<T>
    requires i < |s|
  {
    s[..i] + s[i + 1..]
  }

  /** The waiter with this ticket enters if it is the first that may. */
  function Admit(p: Pool, capacity: Reservation, ticket: u64): Pool {
    match FirstAdmissible(p, capacity, 0)
    case None => p
    case Some(i) =>
      var w := p.queue[i];
      if w.ticket != ticket then p
      else Pool(AddTo(p.used, w.requested), AddToMap(p.byTenant, w.tenant, w.requested),
        AddToMap(p.byCollection, w.collection, w.requested),
             p.nextTicket, RemoveAt(p.queue, i), p.permits + [Permit(w.tenant, w.collection, w.requested)])
  }

  /** Cancelled or timed out. */
  function Leave(p: Pool, ticket: u64, from: nat): Pool
    requires from <= |p.queue|
    decreases |p.queue| - from
  {
    if from == |p.queue| then p
    else if p.queue[from].ticket == ticket then p.(queue := RemoveAt(p.queue, from))
    else Leave(p, ticket, from + 1)
  }

  /** A permit is dropped; None where the source would abort. */
  function Release(p: Pool, i: nat): Option<Pool>
    requires i < |p.permits|
  {
    var permit := p.permits[i];
    match (SubtractFrom(p.used, permit.reserved), SubtractFromMap(p.byTenant, permit.tenant, permit.reserved),
           SubtractFromMap(p.byCollection, permit.collection, permit.reserved))
    case (Some(used), Some(byTenant), Some(byCollection)) =>
      Some(Pool(used, byTenant, byCollection, p.nextTicket, p.queue, RemoveAt(p.permits, i)))
    case _ => None
  }

  // ----- Sums over permits -----

  function Total(permits: seq<Permit>): Reservation {
    if permits == [] then NOTHING
    else
      var n := |permits| - 1;
      var front := Total(permits[..n]);
      Reservation(front.memory + permits[n].reserved.memory, front.cold + permits[n].reserved.cold)
  }

  function Of(permits: seq<Permit>, keyOf: Permit -> nat, key: nat): seq<Permit> {
    if permits == [] then []
    else
      var n := |permits| - 1;
      Of(permits[..n], keyOf, key) + (if keyOf(permits[n]) == key then [permits[n]] else [])
  }

  function Share(permits: seq<Permit>, keyOf: Permit -> nat, key: nat): Reservation {
    Total(Of(permits, keyOf, key))
  }

  function Plus(a: Reservation, b: Reservation): Reservation {
    Reservation(a.memory + b.memory, a.cold + b.cold)
  }

  lemma {:induction false} TotalSnoc(permits: seq<Permit>, x: Permit)
    ensures Total(permits + [x]) == Plus(Total(permits), x.reserved)
  {
    assert (permits + [x])[..|permits|] == permits;
  }

  lemma {:induction false} ShareSnoc(permits: seq<Permit>, keyOf: Permit -> nat, key: nat, x: Permit)
    ensures Share(permits + [x], keyOf, key) == if keyOf(x) == key then Plus(Share(permits, keyOf, key), x.reserved)
      else Share(permits, keyOf, key)
  {
    assert (permits + [x])[..|permits|] == permits;
    if keyOf(x) == key {
      TotalSnoc(Of(permits, keyOf, key), x);
    } else {
      assert Of(permits, keyOf, key) + [] == Of(permits, keyOf, key);
    }
  }

  lemma {:induction false} TotalRemove(permits: seq<Permit>, i: nat)
    requires i < |permits|
    ensures Total(permits) == Plus(Total(RemoveAt(permits, i)), permits[i].reserved)
    decreases |permits|
  {
    var n := |permits| - 1;
    if i < n {
      TotalRemove(permits[..n], i);
      assert RemoveAt(permits, i) == RemoveAt(permits[..n], i) + [permits[n]];
      TotalSnoc(RemoveAt(permits[..n], i), permits[n]);
    } else {
      assert RemoveAt(permits, i) == permits[..n];
    }
  }

  lemma {:induction false} ShareRemove(permits: seq<Permit>, keyOf: Permit -> nat, key: nat, i: nat)
    requires i < |permits|
    ensures Share(permits, keyOf, key) ==
      if keyOf(permits[i]) == key then Plus(Share(RemoveAt(permits, i), keyOf, key), permits[i].reserved)
        else Share(RemoveAt(permits, i), keyOf, key)
    decreases |permits|
  {
    hide Share;
    var n := |permits| - 1;
    assert permits == permits[..n] + [permits[n]];
    ShareSnoc(permits[..n], keyOf, key, permits[n]);
    if i < n {
      ShareRemove(permits[..n], keyOf, key, i);
      assert RemoveAt(permits, i) == RemoveAt(permits[..n], i) + [permits[n]];
      ShareSnoc(RemoveAt(permits[..n], i), keyOf, key, permits[n]);
    } else {
      assert RemoveAt(permits, i) == permits[..n];
    }
  }

  // ----- The invariant -----

  function TenantOf(x: Permit): nat {
    x.tenant
  }

  function CollectionOf(x: Permit): nat {
    x.collection
  }

  /** The map holds the exact usage of every key, and no idle key. */
  ghost predicate MapExact(m: map<nat, Reservation>, permits: seq<Permit>, keyOf: Permit -> nat) {
    && (forall k :: k in m ==> m[k] == Share(permits, keyOf, k) && m[k] != NOTHING)
    && (forall k :: k !in m ==> Share(permits, keyOf, k) == NOTHING)
  }

  ghost predicate Valid(p: Pool, capacity: Reservation) {
    && p.used == Total(p.permits)
    && p.used.memory <= capacity.memory && p.used.cold <= capacity.cold
    && MapExact(p.byTenant, p.permits, TenantOf)
    && MapExact(p.byCollection, p.permits, CollectionOf)
    && (forall i :: 0 <= i < |p.permits| ==> p.permits[i].reserved.memory > 0)
    && (forall i :: 0 <= i < |p.queue| ==>
           && 0 < p.queue[i].requested.memory <= capacity.memory
           && p.queue[i].requested.cold <= capacity.cold)
  }

  /** No key uses more than everything. */
  lemma {:induction false} ShareBelowTotal(permits: seq<Permit>, keyOf: Permit -> nat, key: nat)
    ensures Share(permits, keyOf, key).memory <= Total(permits).memory
      && Share(permits, keyOf, key).cold <= Total(permits).cold
  {
    hide Share;
    if permits == [] {
      EmptyShare(keyOf, key);
    } else {
      var n := |permits| - 1;
      assert permits == permits[..n] + [permits[n]];
      ShareBelowTotal(permits[..n], keyOf, key);
      ShareSnoc(permits[..n], keyOf, key, permits[n]);
    }
  }

  lemma {:induction false} EmptyShare(keyOf: Permit -> nat, key: nat)
    ensures Share([], keyOf, key) == NOTHING
  {
  }

  lemma {:induction false} MapGrows(m: map<nat, Reservation>, permits: seq<Permit>, keyOf: Permit -> nat, x: Permit)
    requires MapExact(m, permits, keyOf) && x.reserved.memory > 0
    requires Total(permits).memory + x.reserved.memory < U64_LIMIT && Total(permits).cold + x.reserved.cold < U64_LIMIT
    ensures MapExact(AddToMap(m, keyOf(x), x.reserved), permits + [x], keyOf)
  {
    hide Share;
    var m' := AddToMap(m, keyOf(x), x.reserved);
    ShareBelowTotal(permits, keyOf, keyOf(x));
    forall k ensures k in m' ==> m'[k] == Share(permits + [x], keyOf, k) && m'[k] != NOTHING
             ensures k !in m' ==> Share(permits + [x], keyOf, k) == NOTHING {
      ShareSnoc(permits, keyOf, k, x);
    }
  }

  lemma {:induction false} MapShrinks(m: map<nat, Reservation>, permits: seq<Permit>, keyOf: Permit -> nat, i: nat)
    requires i < |permits| && MapExact(m, permits, keyOf) && permits[i].reserved.memory > 0
    requires forall j :: 0 <= j < |permits| ==> permits[j].reserved.memory > 0
    ensures var r := SubtractFromMap(m, keyOf(permits[i]), permits[i].reserved);
      r.Some? && MapExact(r.value, RemoveAt(permits, i), keyOf)
  {
    hide Share;
    var x := permits[i];
    ShareRemove(permits, keyOf, keyOf(x), i);
    var m' := SubtractFromMap(m, keyOf(x), x.reserved).value;
    forall k ensures k in m' ==> m'[k] == Share(RemoveAt(permits, i), keyOf, k) && m'[k] != NOTHING
             ensures k !in m' ==> Share(RemoveAt(permits, i), keyOf, k) == NOTHING {
      ShareRemove(permits, keyOf, k, i);
    }
  }

  /** The sums cannot reach the point where the counters saturate: neither capacity is the largest 64-bit
      number, or only one permit of one byte fits at a time. */
  predicate Countable(capacity: Reservation) {
    && capacity.memory < U64_LIMIT - 1
    && (capacity.cold < U64_LIMIT - 1 || (capacity.memory <= 1 && capacity.cold < U64_LIMIT))
  }

  /** Every permit takes a byte of memory at least. */
  lemma {:induction false} PermitsCount(permits: seq<Permit>)
    requires forall i :: 0 <= i < |permits| ==> permits[i].reserved.memory > 0
    ensures |permits| <= Total(permits).memory
  {
    if permits != [] {
      PermitsCount(permits[..|permits| - 1]);
    }
  }

  /** Below the saturation point the test of the total is the true sum's. */
  lemma {:induction false} NoSaturation(p: Pool, capacity: Reservation, w: Waiter)
    requires Valid(p, capacity) && Countable(capacity) && w in p.queue && FitsTotal(p.used, w.requested, capacity)
    ensures p.used.memory + w.requested.memory <= capacity.memory && p.used.cold + w.requested.cold <= capacity.cold
  {
    hide MapExact, Total;
    if capacity.cold == U64_LIMIT - 1 {
      PermitsCount(p.permits);
      EmptyTotal(p.permits);
    }
  }

  lemma {:induction false} EmptyTotal(permits: seq<Permit>)
    ensures permits == [] ==> Total(permits) == NOTHING
  {
  }

  lemma {:induction false} AdmitValid(p: Pool, capacity: Reservation, ticket: u64)
    requires Valid(p, capacity) && Countable(capacity)
    ensures Valid(Admit(p, capacity, ticket), capacity)
  {
    hide MapExact, FitsFairShare, Total, AddToMap;
    var first := FirstAdmissible(p, capacity, 0);
    if first.Some? && p.queue[first.value].ticket == ticket {
      var w := p.queue[first.value];
      var x := Permit(w.tenant, w.collection, w.requested);
      NoSaturation(p, capacity, w);
      TotalSnoc(p.permits, x);
      MapGrows(p.byTenant, p.permits, TenantOf, x);
      MapGrows(p.byCollection, p.permits, CollectionOf, x);
    }
  }

  /** Releasing a permit never underflows and never misses its key. */
  lemma {:induction false} ReleaseValid(p: Pool, capacity: Reservation, i: nat)
    requires Valid(p, capacity) && i < |p.permits|
    ensures Release(p, i).Some? && Valid(Release(p, i).value, capacity)
  {
    hide MapExact, Total, SubtractFromMap;
    TotalRemove(p.permits, i);
    MapShrinks(p.byTenant, p.permits, TenantOf, i);
    MapShrinks(p.byCollection, p.permits, CollectionOf, i);
  }

  lemma {:induction false} LeaveValid(p: Pool, capacity: Reservation, ticket: u64, from: nat)
    requires Valid(p, capacity) && from <= |p.queue|
    ensures Valid(Leave(p, ticket, from), capacity)
    decreases |p.queue| - from
  {
    hide MapExact;
    if from < |p.queue| {
      LeaveValid(p, capacity, ticket, from + 1);
    }
  }

  // ----- Every run -----

  datatype Op = Arrive(tenant: nat, collection: nat,
    requested: Reservation) | TryEnter(ticket: u64) | GiveUp(ticket: u64) | Drop(i: nat)

  /** None where the source would abort, or for dropping a permit nobody holds. */
  function Apply(p: Pool, capacity: Reservation, op: Op): Option<Pool> {
    match op
    case Arrive(tenant, collection, requested) => Some(Enqueue(p, capacity, tenant, collection, requested))
    case TryEnter(ticket) => Some(Admit(p, capacity, ticket))
    case GiveUp(ticket) => Some(Leave(p, ticket, 0))
    case Drop(i) => if i < |p.permits| then Release(p, i) else Some(p)
  }

  function Run(p: Pool, capacity: Reservation, ops: seq<Op>): Option<Pool>
    decreases |ops|
  {
    if ops == [] then Some(p)
    else
      match Apply(p, capacity, ops[0])
      case None => None
      case Some(next) => Run(next, capacity, ops[1..])
  }

  lemma {:induction false} StepValid(p: Pool, capacity: Reservation, op: Op)
    requires Valid(p, capacity) && Countable(capacity)
    ensures Apply(p, capacity, op).Some? && Valid(Apply(p, capacity, op).value, capacity)
  {
    hide MapExact, Total, Release, Admit, Leave;
    match op
    case Arrive(_, _, _) =>
    case TryEnter(ticket) => AdmitValid(p, capacity, ticket);
    case GiveUp(ticket) => LeaveValid(p, capacity, ticket, 0);
    case Drop(i) => if i < |p.permits| { ReleaseValid(p, capacity, i); }
  }

  /** In every run, the totals and both maps are the sums over outstanding permits, within both capacities,
      and no release aborts. */
  lemma {:induction false} RunValid(p: Pool, capacity: Reservation, ops: seq<Op>)
    requires Valid(p, capacity) && Countable(capacity)
    ensures Run(p, capacity, ops).Some? && Valid(Run(p, capacity, ops).value, capacity)
    decreases |ops|
  {
    hide Valid, Apply;
    if ops != [] {
      StepValid(p, capacity, ops[0]);
      RunValid(Apply(p, capacity, ops[0]).value, capacity, ops[1..]);
    }
  }

  lemma {:induction false} EmptyValid(p: Pool, capacity: Reservation)
    requires p == EMPTY
    ensures Valid(p, capacity)
  {
    hide Share;
    forall k ensures Share(p.permits, TenantOf, k) == NOTHING && Share(p.permits, CollectionOf, k) == NOTHING {
      EmptyShare(TenantOf, k);
      EmptyShare(CollectionOf, k);
    }
  }

  /** From the empty pool: the whole statement for every run. */
  lemma {:induction false} PoolInvariant(capacity: Reservation, ops: seq<Op>)
    requires Countable(capacity)
    ensures Run(EMPTY, capacity, ops).Some? && Valid(Run(EMPTY, capacity, ops).value, capacity)
  {
    hide Run, Valid;
    EmptyValid(EMPTY, capacity);
    RunValid(EMPTY, capacity, ops);
  }

  // ----- Exactly which capacities can be counted -----

  /** A waiter alone in the queue, of the only tenant and collection in use, enters if it fits the total. */
  lemma {:induction false} SoleWaiterEnters(p: Pool, capacity: Reservation, w: Waiter)
    requires p.queue == [w] && w.tenant == 0 && w.collection == 0 && FitsTotal(p.used, w.requested, capacity)
    requires p.byTenant == p.byCollection
      && ((p.byTenant == map[] && p.used == NOTHING) || p.byTenant == map[0 := p.used])
    ensures FirstAdmissible(p, capacity, 0) == Some(0)
  {
    OneContender(p.queue, p.byTenant, (x: Waiter) => x.tenant, (r: Reservation) => r.memory);
    OneContender(p.queue, p.byTenant, (x: Waiter) => x.tenant, (r: Reservation) => r.cold);
    OneContender(p.queue, p.byCollection, (x: Waiter) => x.collection, (r: Reservation) => r.memory);
    OneContender(p.queue, p.byCollection, (x: Waiter) => x.collection, (r: Reservation) => r.cold);
    assert Admissible(p, capacity, p.queue[0]);
  }

  lemma {:induction false} OneContender(
    queue: seq<Waiter>, inUse: map<nat, Reservation>, keyOf: Waiter -> nat, amount: Reservation -> nat)
    requires inUse.Keys <= {0} && forall i :: 0 <= i < |queue| ==> keyOf(queue[i]) == 0
    ensures ContenderCount(queue, inUse, keyOf, amount) == 1
  {
    var keys := Contenders(queue, inUse, keyOf, amount);
    assert keys <= {0};
    if keys != {} {
      assert keys == {0};
    }
  }

  /** The pool after two requests of one tenant entered one after the other. */
  function Both(r1: Reservation, r2: Reservation): Pool {
    var sum := AddTo(r1, r2);
    Pool(sum, map[0 := sum], map[0 := sum], 2, [], [Permit(0, 0, r1), Permit(0, 0, r2)])
  }

  lemma {:induction false} FirstEnters(capacity: Reservation, r: Reservation)
    requires r.memory > 0 && FitsTotal(NOTHING, r, capacity) && r.memory < U64_LIMIT && r.cold < U64_LIMIT
    ensures Admit(Enqueue(EMPTY, capacity, 0, 0, r), capacity, 0)
      == Pool(r, map[0 := r], map[0 := r], 1, [], [Permit(0, 0, r)])
  {
    hide FirstAdmissible;
    var p := Enqueue(EMPTY, capacity, 0, 0, r);
    assert p == EMPTY.(queue := [Waiter(0, 0, 0, r)], nextTicket := 1);
    SoleWaiterEnters(p, capacity, Waiter(0, 0, 0, r));
  }

  lemma {:induction false} SecondEnters(capacity: Reservation, r1: Reservation, r2: Reservation, p: Pool)
    requires p == Pool(r1, map[0 := r1], map[0 := r1], 1, [], [Permit(0, 0, r1)])
    requires r2.memory > 0 && FitsTotal(r1, r2, capacity) && r2.memory <= capacity.memory && r2.cold <= capacity.cold
    ensures Admit(Enqueue(p, capacity, 0, 0, r2), capacity, 1) == Both(r1, r2)
  {
    hide FirstAdmissible, Admit, AddTo, AddToMap, FitsTotal;
    var q := Enqueue(p, capacity, 0, 0, r2);
    assert q == p.(queue := [Waiter(1, 0, 0, r2)], nextTicket := 2);
    SoleWaiterEnters(q, capacity, Waiter(1, 0, 0, r2));
    SoleAdmitted(q, capacity, Waiter(1, 0, 0, r2));
    OneKeyGrows(r1, r2);
  }

  lemma {:induction false} SoleAdmitted(p: Pool, capacity: Reservation, w: Waiter)
    requires p.queue == [w] && FirstAdmissible(p, capacity, 0) == Some(0)
    ensures Admit(p, capacity, w.ticket) ==
      Pool(AddTo(p.used, w.requested), AddToMap(p.byTenant, w.tenant, w.requested),
        AddToMap(p.byCollection, w.collection, w.requested),
           p.nextTicket, [], p.permits + [Permit(w.tenant, w.collection, w.requested)])
  {
    hide FirstAdmissible, AddTo, AddToMap;
    assert RemoveAt(p.queue, 0) == [];
  }

  lemma {:induction false} OneKeyGrows(r1: Reservation, r2: Reservation)
    ensures AddToMap(map[0 := r1], 0, r2) == map[0 := AddTo(r1, r2)]
  {
    hide AddTo;
  }

  function BothOps(r1: Reservation, r2: Reservation): seq<Op> {
    [Arrive(0, 0, r1), TryEnter(0), Arrive(0, 0, r2), TryEnter(1), Drop(0), Drop(0)]
  }

  /** When the sum saturated, releasing both permits underflows. */
  lemma {:induction false} SaturatedAborts(capacity: Reservation, r1: Reservation, r2: Reservation)
    requires r1.memory > 0 && r2.memory > 0 && FitsTotal(NOTHING, r1, capacity) && FitsTotal(r1, r2, capacity)
    requires r1.memory < U64_LIMIT && r1.cold < U64_LIMIT && r2.memory <= capacity.memory && r2.cold <= capacity.cold
    requires r1.memory + r2.memory >= U64_LIMIT || r1.cold + r2.cold >= U64_LIMIT
    ensures Run(EMPTY, capacity, BothOps(r1, r2)).None?
  {
    hide Admit, Enqueue, Release;
    var ops := BothOps(r1, r2);
    var p1 := Enqueue(EMPTY, capacity, 0, 0, r1);
    var p2 := Admit(p1, capacity, 0);
    var p3 := Enqueue(p2, capacity, 0, 0, r2);
    var p4 := Admit(p3, capacity, 1);
    FirstEnters(capacity, r1);
    SecondEnters(capacity, r1, r2, p2);
    ReleaseBoth(r1, r2);
    RunOne(EMPTY, capacity, ops, 0, p1);
    RunOne(p1, capacity, ops, 1, p2);
    RunOne(p2, capacity, ops, 2, p3);
    RunOne(p3, capacity, ops, 3, p4);
    var p5 := Release(p4, 0);
    if p5.Some? {
      RunOne(p4, capacity, ops, 4, p5.value);
    }
    assert ops[0..] == ops;
  }

  lemma {:induction false} RunOne(p: Pool, capacity: Reservation, ops: seq<Op>, i: nat, next: Pool)
    requires i < |ops| && Apply(p, capacity, ops[i]) == Some(next)
    ensures Run(p, capacity, ops[i..]) == Run(next, capacity, ops[i + 1..])
  {
    hide Apply;
    assert ops[i..][0] == ops[i] && ops[i..][1..] == ops[i + 1..];
  }

  lemma {:induction false} ReleaseBoth(r1: Reservation, r2: Reservation)
    requires r1.memory < U64_LIMIT && r1.cold < U64_LIMIT
    requires r1.memory + r2.memory >= U64_LIMIT || r1.cold + r2.cold >= U64_LIMIT
    ensures Release(Both(r1, r2), 0).Some? ==>
      |Release(Both(r1, r2), 0).value.permits| == 1 && Release(Release(Both(r1, r2), 0).value, 0).None?
  {
    var first := Release(Both(r1, r2), 0);
    if first.Some? {
      assert first.value.permits == [Permit(0, 0, r2)];
    }
  }

  /** No run ever aborts, if and only if the capacities can be counted: with a capacity of 2^64 - 1 bytes the
      saturating test lets two permits in whose sum the counter cannot hold, and releasing them underflows. */
  lemma {:induction false} CapacityExact(capacity: Reservation)
    requires 0 < capacity.memory < U64_LIMIT && 0 < capacity.cold < U64_LIMIT
    ensures (forall ops: seq<Op> :: Run(EMPTY, capacity, ops).Some?) <==> Countable(capacity)
  {
    hide Run, FitsTotal;
    if Countable(capacity) {
      forall ops: seq<Op> ensures Run(EMPTY, capacity, ops).Some? {
        PoolInvariant(capacity, ops);
      }
    } else if capacity.memory == U64_LIMIT - 1 {
      var r1, r2 := Reservation(U64_LIMIT - 1, 0), Reservation(1, 0);
      TwoFit(capacity, r1, r2);
      SaturatedAborts(capacity, r1, r2);
    } else {
      var r1, r2 := Reservation(1, U64_LIMIT - 1), Reservation(1, 1);
      TwoFit(capacity, r1, r2);
      SaturatedAborts(capacity, r1, r2);
    }
  }

  lemma {:induction false} TwoFit(capacity: Reservation, r1: Reservation, r2: Reservation)
    requires r1.memory < U64_LIMIT && r1.cold < U64_LIMIT && r1.memory <= capacity.memory && r1.cold <= capacity.cold
    requires r1.memory + r2.memory <= capacity.memory || capacity.memory == U64_LIMIT - 1
    requires r1.cold + r2.cold <= capacity.cold || capacity.cold == U64_LIMIT - 1
    ensures FitsTotal(NOTHING, r1, capacity) && FitsTotal(r1, r2, capacity)
  {
  }

  // ----- Fair shares add up -----

  /** One resource of a list of permits, by key. */
  function Amounts(permits: seq<Permit>, keyOf: Permit -> nat, amount: Reservation -> nat): (r: seq<(nat, nat)>)
    ensures |r| == |permits| && forall i :: 0 <= i < |r| ==> r[i] == (keyOf(permits[i]), amount(permits[i].reserved))
  {
    seq(|permits|, i requires 0 <= i < |permits| => (keyOf(permits[i]), amount(permits[i].reserved)))
  }

  function SumOf(items: seq<(nat, nat)>): nat {
    if items == [] then 0 else items[0].1 + SumOf(items[1..])
  }

  function SumFor(items: seq<(nat, nat)>, key: nat): nat {
    if items == [] then 0 else (if items[0].0 == key then items[0].1 else 0) + SumFor(items[1..], key)
  }

  function Except(items: seq<(nat, nat)>, key: nat): seq<(nat, nat)> {
    if items == [] then [] else (if items[0].0 == key then [] else [items[0]]) + Except(items[1..], key)
  }

  lemma {:induction false} ExceptSums(items: seq<(nat, nat)>, key: nat, other: nat)
    ensures SumOf(items) == SumFor(items, key) + SumOf(Except(items, key))
    ensures SumFor(Except(items, key), other) == if other == key then 0 else SumFor(items, other)
  {
    if items != [] {
      ExceptSums(items[1..], key, other);
      var rest := Except(items[1..], key);
      if items[0].0 == key {
        assert Except(items, key) == rest;
      } else {
        assert Except(items, key)[1..] == rest;
      }
    }
  }

  lemma {:induction false} SumForAll(items: seq<(nat, nat)>)
    requires forall k :: SumFor(items, k) == 0
    ensures SumOf(items) == 0
  {
    if items != [] {
      forall k ensures SumFor(items[1..], k) == 0 {
        assert SumFor(items, k) == 0;
      }
      assert SumFor(items, items[0].0) == 0;
      SumForAll(items[1..]);
    }
  }

  /** If every key stays within a bound, the sum is within the bound times the number of keys in use. */
  lemma {:induction false} BoundedShares(items: seq<(nat, nat)>, keys: set<nat>, bound: nat)
    requires forall k :: k in keys ==> SumFor(items, k) <= bound
    requires forall k :: k !in keys ==> SumFor(items, k) == 0
    ensures SumOf(items) <= |keys| * bound
    decreases |keys|
  {
    hide SumFor, SumOf, Except;
    if keys == {} {
      SumForAll(items);
    } else {
      var key :| key in keys;
      var rest := Except(items, key);
      forall k ensures SumFor(rest, k) == if k == key then 0 else SumFor(items, k) {
        ExceptSums(items, key, k);
      }
      ExceptSums(items, key, key);
      var others := keys - {key};
      BoundedShares(rest, others, bound);
      assert |keys| == |others| + 1;
      assert (|others| + 1) * bound == |others| * bound + bound;
    }
  }

  lemma {:induction false} AmountsTotal(permits: seq<Permit>, keyOf: Permit -> nat, memory: bool)
    ensures SumOf(Amounts(permits, keyOf, Pick(memory))) == Pick(memory)(Total(permits))
    decreases |permits|
  {
    if permits != [] {
      var n := |permits| - 1;
      AmountsTotal(permits[..n], keyOf, memory);
      var front, all := Amounts(permits[..n], keyOf, Pick(memory)), Amounts(permits, keyOf, Pick(memory));
      assert all == front + [all[n]];
      SumSnoc(front, all[n], 0);
    }
  }

  lemma {:induction false} AmountsShare(permits: seq<Permit>, keyOf: Permit -> nat, memory: bool, key: nat)
    ensures SumFor(Amounts(permits, keyOf, Pick(memory)), key) == Pick(memory)(Share(permits, keyOf, key))
    decreases |permits|
  {
    hide Share;
    if permits == [] {
      EmptyShare(keyOf, key);
    } else {
      var n := |permits| - 1;
      AmountsShare(permits[..n], keyOf, memory, key);
      var front, all := Amounts(permits[..n], keyOf, Pick(memory)), Amounts(permits, keyOf, Pick(memory));
      assert all == front + [all[n]] && permits == permits[..n] + [permits[n]];
      SumSnoc(front, all[n], key);
      ShareSnoc(permits[..n], keyOf, key, permits[n]);
    }
  }

  function Pick(memory: bool): Reservation -> nat {
    if memory then (r: Reservation) => r.memory else (r: Reservation) => r.cold
  }

  lemma {:induction false} SumSnoc(items: seq<(nat, nat)>, x: (nat, nat), key: nat)
    ensures SumOf(items + [x]) == SumOf(items) + x.1
    ensures SumFor(items + [x], key) == SumFor(items, key) + (if x.0 == key then x.1 else 0)
  {
    if items == [] {
      assert items + [x] == [x];
      assert [x][1..] == items;
    } else {
      assert (items + [x])[1..] == items[1..] + [x];
      SumSnoc(items[1..], x, key);
    }
  }

  /** Every key in use is within an equal part of the capacity. */
  ghost predicate SharesKept(
    inUse: map<nat, Reservation>, queue: seq<Waiter>, keyOf: Waiter -> nat, capacity: Reservation, memory: bool) {
    var share := Pick(memory)(capacity) / ContenderCount(queue, inUse, keyOf, Pick(memory));
    forall k :: k in inUse ==> Pick(memory)(inUse[k]) <= share
  }

  function TenantKey(): Waiter -> nat {
    (x: Waiter) => x.tenant
  }

  function Current(p: Pool, tenant: nat, memory: bool): nat {
    Pick(memory)(if tenant in p.byTenant then p.byTenant[tenant] else NOTHING)
  }

  /** One resource of the capacity divided by the tenants that contend for it. */
  function EqualShare(p: Pool, capacity: Reservation, memory: bool): nat {
    Pick(memory)(capacity) / ContenderCount(p.queue, p.byTenant, TenantKey(), Pick(memory))
  }

  /** The share test on one resource of the waiter at place `i`. */
  predicate PassesShare(p: Pool, capacity: Reservation, i: nat, memory: bool)
    requires i < |p.queue|
  {
    WithinShare(Current(p, p.queue[i].tenant, memory), Pick(memory)(p.queue[i].requested), Pick(memory)(capacity),
                ContenderCount(p.queue, p.byTenant, TenantKey(), Pick(memory)))
  }

  /** The test against the total on one resource. */
  predicate PassesTotal(p: Pool, capacity: Reservation, i: nat, memory: bool)
    requires i < |p.queue|
  {
    SaturatingAdd(Pick(memory)(p.used), Pick(memory)(p.queue[i].requested)) <= Pick(memory)(capacity)
  }

  /** The same pool with the waiter at place `i` asking for `x` of one resource. */
  function Asking(p: Pool, i: nat, memory: bool, x: nat): Pool
    requires i < |p.queue|
  {
    var r := p.queue[i].requested;
    p.(queue := p.queue[i := p.queue[i].(requested := if memory then r.(memory := x) else r.(cold := x))])
  }

  /** Asking for `x` and passing the share test implies passing the total. */
  predicate ShareGuards(p: Pool, capacity: Reservation, i: nat, memory: bool, x: nat)
    requires i < |p.queue|
  {
    var q := Asking(p, i, memory, x);
    PassesShare(q, capacity, i, memory) ==> PassesTotal(q, capacity, i, memory)
  }

  lemma {:induction false} AskingKeeps(p: Pool, i: nat, memory: bool, x: nat)
    requires i < |p.queue| && x > 0 && Pick(memory)(p.queue[i].requested) > 0
    ensures var q := Asking(p, i, memory, x);
      && ContenderCount(q.queue, q.byTenant, TenantKey(), Pick(memory))
        == ContenderCount(p.queue, p.byTenant, TenantKey(), Pick(memory))
      && Pick(memory)(q.queue[i].requested) == x
  {
    var q := Asking(p, i, memory, x);
    var amount, key := Pick(memory), TenantKey();
    forall j | 0 <= j < |p.queue| ensures amount(q.queue[j].requested) > 0 <==> amount(p.queue[j].requested) > 0
             ensures key(q.queue[j]) == key(p.queue[j]) {
    }
    assert KeysQueued(q.queue, key, amount) == KeysQueued(p.queue, key, amount);
  }

  /** What decides whether the tenant's share test also guards the total: the tenant has used its share up, or
      what the others hold leaves room for a whole share. */
  ghost predicate ShareSafe(p: Pool, capacity: Reservation, tenant: nat, memory: bool) {
    var share := EqualShare(p, capacity, memory);
    || Pick(memory)(capacity) == U64_LIMIT - 1
    || Current(p, tenant, memory) >= share
    || Pick(memory)(p.used) - Current(p, tenant, memory) + share <= Pick(memory)(capacity)
  }

  /** Every amount the waiter at place `i` could ask for and that passes the share test fits the total, if and
      only if its tenant is safe. */
  lemma {:induction false} ShareExact(p: Pool, capacity: Reservation, i: nat, memory: bool)
    requires Valid(p, capacity) && i < |p.queue| && Pick(memory)(p.queue[i].requested) > 0
    requires Pick(memory)(capacity) < U64_LIMIT
    ensures (forall x: nat :: 0 < x <= Pick(memory)(capacity) ==> ShareGuards(p, capacity, i, memory, x))
      <==> ShareSafe(p, capacity, p.queue[i].tenant, memory)
  {
    hide Valid, ContenderCount, Pick, SaturatingAdd, ShareGuards;
    var tenant, c := p.queue[i].tenant, Pick(memory)(capacity);
    var share, current, used := EqualShare(p, capacity, memory), Current(p, tenant, memory), Pick(memory)(p.used);
    CurrentBelow(p, capacity, tenant, memory);
    QuotientBelow(c, ContenderCount(p.queue, p.byTenant, TenantKey(), Pick(memory)));
    if ShareSafe(p, capacity, tenant, memory) {
      forall x: nat | 0 < x <= c ensures ShareGuards(p, capacity, i, memory, x) {
        GuardMeans(p, capacity, i, memory, x);
        if SaturatingAdd(current, x) <= share {
          SafeFits(used, current, x, share, c);
        }
      }
    } else {
      SafeNeeded(used, current, share, c);
      GuardMeans(p, capacity, i, memory, share - current);
    }
  }

  lemma {:induction false} GuardMeans(p: Pool, capacity: Reservation, i: nat, memory: bool, x: nat)
    requires i < |p.queue| && x > 0 && Pick(memory)(p.queue[i].requested) > 0
    ensures ShareGuards(p, capacity, i, memory, x) <==>
      (SaturatingAdd(Current(p, p.queue[i].tenant, memory), x) <= EqualShare(p, capacity, memory) ==>
         SaturatingAdd(Pick(memory)(p.used), x) <= Pick(memory)(capacity))
  {
    hide ContenderCount, Pick, WithinShare, SaturatingAdd;
    AskingKeeps(p, i, memory, x);
    SharePositive(Current(p, p.queue[i].tenant, memory), x, Pick(memory)(capacity),
      ContenderCount(p.queue, p.byTenant, TenantKey(), Pick(memory)));
  }

  lemma {:induction false} SharePositive(current: nat, x: nat, c: nat, n: nat)
    requires x > 0 && n > 0
    ensures WithinShare(current, x, c, n) <==> SaturatingAdd(current, x) <= c / n
  {
    hide SaturatingAdd;
  }

  lemma {:induction false} SafeFits(used: nat, current: nat, x: nat, share: nat, c: nat)
    requires x > 0 && current <= used && share <= c < U64_LIMIT && SaturatingAdd(current, x) <= share
    requires c == U64_LIMIT - 1 || current >= share || used - current + share <= c
    ensures SaturatingAdd(used, x) <= c
  {
  }

  lemma {:induction false} SafeNeeded(used: nat, current: nat, share: nat, c: nat)
    requires current <= used && share <= c < U64_LIMIT - 1 && current < share && used - current + share > c
    ensures SaturatingAdd(current, share - current) <= share && SaturatingAdd(used, share - current) > c
  {
  }

  lemma {:induction false} CurrentBelow(p: Pool, capacity: Reservation, tenant: nat, memory: bool)
    requires Valid(p, capacity)
    ensures Current(p, tenant, memory) <= Pick(memory)(p.used) <= Pick(memory)(capacity)
  {
    hide Share, Total;
    ShareBelowTotal(p.permits, TenantOf, tenant);
  }

  function Rivals(p: Pool, memory: bool): set<nat> {
    Contenders(p.queue, p.byTenant, TenantKey(), Pick(memory))
  }

  lemma {:induction false} AskerIsRival(p: Pool, i: nat, memory: bool)
    requires i < |p.queue| && Pick(memory)(p.queue[i].requested) > 0
    ensures p.queue[i].tenant in Rivals(p, memory)
    ensures ContenderCount(p.queue, p.byTenant, TenantKey(), Pick(memory)) == |Rivals(p, memory)|
  {
    hide Pick;
    assert TenantKey()(p.queue[i]) == p.queue[i].tenant;
  }

  /** What a tenant other than the asker holds. */
  lemma {:induction false} RivalHolds(p: Pool, capacity: Reservation, tenant: nat, memory: bool, k: nat)
    requires Valid(p, capacity) && SharesKept(p.byTenant, p.queue, TenantKey(), capacity, memory)
    ensures var rest := Except(Amounts(p.permits, TenantOf, Pick(memory)), tenant);
      && (k in Rivals(p, memory) - {tenant} ==> SumFor(rest, k) <= EqualShare(p, capacity, memory))
      && (k !in Rivals(p, memory) - {tenant} ==> SumFor(rest, k) == 0)
  {
    hide Valid, SumFor, SumOf, Except, Pick, Amounts, ContenderCount;
    PickNothing(memory);
    ExceptSums(Amounts(p.permits, TenantOf, Pick(memory)), tenant, k);
    TenantAmount(p, capacity, memory, k);
  }

  /** Where all tenants in use are within their shares, the others leave room for one more share. */
  lemma {:induction false} SharesKeptSafe(p: Pool, capacity: Reservation, i: nat, memory: bool)
    requires Valid(p, capacity) && i < |p.queue| && Pick(memory)(p.queue[i].requested) > 0
    requires SharesKept(p.byTenant, p.queue, TenantKey(), capacity, memory)
    ensures ShareSafe(p, capacity, p.queue[i].tenant, memory)
  {
    hide Valid, SumFor, SumOf, Except, Pick, Amounts, SharesKept, Rivals, ContenderCount;
    var tenant, share := p.queue[i].tenant, EqualShare(p, capacity, memory);
    var held := Amounts(p.permits, TenantOf, Pick(memory));
    var rest, others := Except(held, tenant), Rivals(p, memory) - {tenant};
    AskerIsRival(p, i, memory);
    forall k ensures (k in others ==> SumFor(rest, k) <= share) && (k !in others ==> SumFor(rest, k) == 0) {
      RivalHolds(p, capacity, tenant, memory, k);
    }
    BoundedShares(rest, others, share);
    ExceptSums(held, tenant, tenant);
    PickNothing(memory);
    TenantAmount(p, capacity, memory, tenant);
    UsedAmount(p, capacity, memory);
    assert |Rivals(p, memory)| == |others| + 1;
    RoomForOne(|others|, Pick(memory)(capacity), share);
  }

  lemma {:induction false} RoomForOne(others: nat, c: nat, share: nat)
    requires share == c / (others + 1)
    ensures others * share + share <= c
  {
    DivisionBound(c, others + 1);
    assert (others + 1) * share == others * share + share;
  }

  lemma {:induction false} PickNothing(memory: bool)
    ensures Pick(memory)(NOTHING) == 0
  {
  }

  lemma {:induction false} TenantAmount(p: Pool, capacity: Reservation, memory: bool, k: nat)
    requires Valid(p, capacity)
    ensures SumFor(Amounts(p.permits, TenantOf, Pick(memory)), k) == if k in p.byTenant then Pick(memory)(p.byTenant[k])
      else 0
  {
    hide Share, Total, SumFor;
    AmountsShare(p.permits, TenantOf, memory, k);
  }

  lemma {:induction false} UsedAmount(p: Pool, capacity: Reservation, memory: bool)
    requires Valid(p, capacity)
    ensures SumOf(Amounts(p.permits, TenantOf, Pick(memory))) == Pick(memory)(p.used)
  {
    hide MapExact, Total, SumOf;
    AmountsTotal(p.permits, TenantOf, memory);
  }

  lemma {:induction false} DivisionBound(n: nat, d: nat)
    requires d > 0
    ensures d * (n / d) <= n
  {
  }

  /** Fair shares are enough: where every tenant in use is within capacity divided by contenders, a waiter
      that passes the tenant test also fits the total. */
  lemma {:induction false} FairShareFitsTotal(p: Pool, capacity: Reservation, i: nat)
    requires Valid(p, capacity) && capacity.memory < U64_LIMIT && capacity.cold < U64_LIMIT
    requires i < |p.queue|
    requires SharesKept(p.byTenant, p.queue, TenantKey(), capacity, true)
    requires SharesKept(p.byTenant, p.queue, TenantKey(), capacity, false)
    requires FitsFairShare(p.queue[i], p.queue, p.byTenant, capacity, TenantKey())
    ensures FitsTotal(p.used, p.queue[i].requested, capacity)
  {
    hide Valid, SharesKept, ContenderCount, Contenders;
    RequestsFit(p, capacity, i);
    KeptFits(p, capacity, i, true);
    if p.queue[i].requested.cold > 0 {
      KeptFits(p, capacity, i, false);
    }
  }

  lemma {:induction false} KeptFits(p: Pool, capacity: Reservation, i: nat, memory: bool)
    requires Valid(p, capacity) && i < |p.queue| && Pick(memory)(p.queue[i].requested) > 0
    requires Pick(memory)(capacity) < U64_LIMIT && SharesKept(p.byTenant, p.queue, TenantKey(), capacity, memory)
    requires PassesShare(p, capacity, i, memory)
    ensures PassesTotal(p, capacity, i, memory)
  {
    hide SharesKept, PassesShare, PassesTotal, ShareSafe;
    SharesKeptSafe(p, capacity, i, memory);
    ShareExact(p, capacity, i, memory);
    var x := Pick(memory)(p.queue[i].requested);
    assert Asking(p, i, memory, x) == p;
    assert ShareGuards(p, capacity, i, memory, x);
  }

  lemma {:induction false} RequestsFit(p: Pool, capacity: Reservation, i: nat)
    requires Valid(p, capacity) && i < |p.queue|
    ensures p.queue[i].requested.memory > 0
    ensures p.used.memory <= capacity.memory && p.used.cold <= capacity.cold
  {
  }

  /** The premise is needed, and runs break it: a lone tenant may take the whole capacity, and a later
      tenant's request within its half then does not fit. */
  lemma {:induction false} LoneTenantTakesAll()
    ensures var capacity := Reservation(2, 1);
      var p := Run(EMPTY, capacity, [Arrive(0, 0, Reservation(2, 0)), TryEnter(0), Arrive(1, 1, Reservation(1, 0))]);
      && p.Some? && |p.value.queue| == 1
      && FitsFairShare(p.value.queue[0], p.value.queue, p.value.byTenant, capacity, (x: Waiter) => x.tenant)
      && !FitsTotal(p.value.used, p.value.queue[0].requested, capacity)
  {
    hide FitsFairShare, FirstAdmissible;
    var capacity := Reservation(2, 1);
    var ops := [Arrive(0, 0, Reservation(2, 0)), TryEnter(0), Arrive(1, 1, Reservation(1, 0))];
    var w, v := Waiter(0, 0, 0, Reservation(2, 0)), Waiter(1, 1, 1, Reservation(1, 0));
    var p1 := EMPTY.(queue := [w], nextTicket := 1);
    assert Enqueue(EMPTY, capacity, 0, 0, Reservation(2, 0)) == p1;
    Alone(p1, capacity, w);
    var p2 := Admit(p1, capacity, 0);
    assert p2.used == Reservation(2, 0) && p2.byTenant == map[0 := Reservation(2, 0)] && p2.queue == []
      && p2.nextTicket == 1;
    var p3 := Enqueue(p2, capacity, 1, 1, Reservation(1, 0));
    assert p3.queue == [v] && p3.byTenant == p2.byTenant && p3.used == p2.used;
    TwoTenants(p3.queue, p3.byTenant, v);
    ThreeSteps(EMPTY, p1, p2, p3, capacity, ops);
  }

  lemma {:induction false} ThreeSteps(p: Pool, p1: Pool, p2: Pool, p3: Pool, capacity: Reservation, ops: seq<Op>)
    requires |ops| == 3 && Apply(p, capacity, ops[0]) == Some(p1) && Apply(p1, capacity, ops[1]) == Some(p2)
      && Apply(p2, capacity, ops[2]) == Some(p3)
    ensures Run(p, capacity, ops) == Some(p3)
  {
    hide Apply;
    assert Run(p, capacity, ops) == Run(p1, capacity, ops[1..]);
    assert Run(p1, capacity, ops[1..]) == Run(p2, capacity, ops[1..][1..]);
    assert Run(p2, capacity, ops[1..][1..]) == Run(p3, capacity, ops[1..][1..][1..]);
    assert ops[1..][1..][1..] == [];
  }

  lemma {:induction false} Alone(p: Pool, capacity: Reservation, w: Waiter)
    requires p.queue == [w] && p.byTenant == map[] && p.byCollection == map[] && p.used == NOTHING
    requires w.requested == Reservation(2, 0) && capacity == Reservation(2, 1)
    ensures FirstAdmissible(p, capacity, 0) == Some(0)
  {
    var memory, cold := (r: Reservation) => r.memory, (r: Reservation) => r.cold;
    var tenant, collection := (x: Waiter) => x.tenant, (x: Waiter) => x.collection;
    assert p.queue[0] == w;
    assert Contenders(p.queue, p.byTenant, tenant, memory) == {w.tenant};
    assert Contenders(p.queue, p.byCollection, collection, memory) == {w.collection};
  }

  lemma {:induction false} TwoTenants(queue: seq<Waiter>, inUse: map<nat, Reservation>, v: Waiter)
    requires queue == [v] && v.tenant == 1 && v.requested == Reservation(1, 0) && inUse == map[0 := Reservation(2, 0)]
    ensures FitsFairShare(v, queue, inUse, Reservation(2, 1), (x: Waiter) => x.tenant)
  {
    var memory, tenant := (r: Reservation) => r.memory, (x: Waiter) => x.tenant;
    assert queue[0] == v;
    assert Contenders(queue, inUse, tenant, memory) == {0, 1};
  }

  // ----- The pool in place -----

  /** The counting loops: keys in use, then keys in the queue. */
  method DistinctContenders(
    queue: seq<Waiter>, inUse: map<nat, Reservation>, keyOf: Waiter -> nat, amount: Reservation -> nat) returns (n: nat)
    ensures n == ContenderCount(queue, inUse, keyOf, amount)
  {
    var keys := CollectInUse(inUse, amount);
    keys := CollectQueued(queue, keyOf, amount, keys);
    n := if |keys| == 0 then 1 else |keys|;
  }

  method CollectInUse(inUse: map<nat, Reservation>, amount: Reservation -> nat) returns (keys: set<nat>)
    ensures keys == KeysInUse(inUse, amount)
  {
    keys := {};
    var left := inUse.Keys;
    while left != {}
      invariant left <= inUse.Keys && keys <= KeysInUse(inUse, amount) <= keys + left
      decreases |left|
    {
      var key :| key in left;
      left := left - {key};
      if amount(inUse[key]) > 0 {
        keys := keys + {key};
      }
    }
  }

  method CollectQueued(
    queue: seq<Waiter>, keyOf: Waiter -> nat, amount: Reservation -> nat, start: set<nat>) returns (keys: set<nat>)
    ensures keys == start + KeysQueued(queue, keyOf, amount)
  {
    keys := start;
    for i := 0 to |queue|
      invariant keys == start + KeysQueued(queue[..i], keyOf, amount)
    {
      QueuedSnoc(queue[..i], queue[i], keyOf, amount);
      assert queue[..i + 1] == queue[..i] + [queue[i]];
      if amount(queue[i].requested) > 0 {
        keys := keys + {keyOf(queue[i])};
      }
    }
    assert queue[..|queue|] == queue;
  }

  lemma {:induction false} QueuedSnoc(queue: seq<Waiter>, w: Waiter, keyOf: Waiter -> nat, amount: Reservation -> nat)
    ensures KeysQueued(queue + [w], keyOf, amount) ==
      KeysQueued(queue, keyOf, amount) + (if amount(w.requested) > 0 then {keyOf(w)} else {})
  {
    var all := queue + [w];
    forall k | k in KeysQueued(queue, keyOf, amount) ensures k in KeysQueued(all, keyOf, amount) {
      var i :| 0 <= i < |queue| && amount(queue[i].requested) > 0 && keyOf(queue[i]) == k;
      assert all[i] == queue[i];
    }
    assert all[|queue|] == w;
  }

  class GraphAdmissionPool {
    const capacity: Reservation
    var used: Reservation
    var byTenant: map<nat, Reservation>
    var byCollection: map<nat, Reservation>
    var nextTicket: u64
    var queue: seq<Waiter>
    ghost var permits: seq<Permit>

    ghost function State(): Pool
      reads this
    {
      Pool(used, byTenant, byCollection, nextTicket, queue, permits)
    }

    constructor (memory: nat, cold: nat)
      ensures capacity == Reservation(if memory == 0 then 1 else memory, if cold == 0 then 1 else cold)
      ensures State() == EMPTY && Valid(State(), capacity)
    {
      capacity := Reservation(if memory == 0 then 1 else memory, if cold == 0 then 1 else cold);
      used, byTenant, byCollection, nextTicket, queue, permits := NOTHING, map[], map[], 0, [], [];
      new;
      EmptyValid(State(), capacity);
    }

    /** Join the queue; None when the request can never be met. */
    method Join(tenant: nat, collection: nat, requested: Reservation) returns (ticket: Option<u64>)
      requires Valid(State(), capacity)
      modifies this
      ensures State() == Enqueue(old(State()), capacity, tenant, collection, requested) && Valid(State(), capacity)
      ensures ticket.Some? ==> ticket.value == old(nextTicket) && |queue| == |old(queue)| + 1
      ensures ticket.None? ==> State() == old(State())
    {
      hide MapExact, Total;
      if requested.memory == 0 || requested.memory > capacity.memory || requested.cold > capacity.cold {
        return None;
      }
      ticket := Some(nextTicket);
      queue := queue + [Waiter(nextTicket, tenant, collection, requested)];
      nextTicket := (nextTicket + 1) % U64_LIMIT;
    }

    /** One pass of the waiting loop: take the reservation if this ticket is the first that may enter. */
    method TryAcquire(ticket: u64) returns (permit: Option<Permit>)
      requires Valid(State(), capacity) && Countable(capacity)
      modifies this
      ensures State() == Admit(old(State()), capacity, ticket) && Valid(State(), capacity)
      ensures permit.Some? ==> permits == old(permits) + [permit.value]
      ensures permit.None? ==> State() == old(State())
    {
      hide Valid, FitsFairShare, Total, AddToMap;
      AdmitValid(State(), capacity, ticket);
      var position := FindAdmissible();
      if position.None? || queue[position.value].ticket != ticket {
        return None;
      }
      var w := queue[position.value];
      queue := RemoveAt(queue, position.value);
      used := AddTo(used, w.requested);
      byTenant := AddToMap(byTenant, w.tenant, w.requested);
      byCollection := AddToMap(byCollection, w.collection, w.requested);
      permit := Some(Permit(w.tenant, w.collection, w.requested));
      permits := permits + [permit.value];
    }

    method FindAdmissible() returns (r: Option<nat>)
      ensures r == FirstAdmissible(State(), capacity, 0)
    {
      hide FitsFairShare, FitsTotal;
      for i := 0 to |queue|
        invariant FirstAdmissible(State(), capacity, 0) == FirstAdmissible(State(), capacity, i)
      {
        var fits := CanEnter(queue[i]);
        if fits {
          return Some(i);
        }
      }
      return None;
    }

    method CanEnter(w: Waiter) returns (r: bool)
      ensures r == Admissible(State(), capacity, w)
    {
      if !FitsTotal(used, w.requested, capacity) {
        return false;
      }
      r := InShare(w, byTenant, (x: Waiter) => x.tenant);
      if r {
        r := InShare(w, byCollection, (x: Waiter) => x.collection);
      }
    }

    method InShare(w: Waiter, inUse: map<nat, Reservation>, keyOf: Waiter -> nat) returns (r: bool)
      ensures r == FitsFairShare(w, queue, inUse, capacity, keyOf)
    {
      var current := if keyOf(w) in inUse then inUse[keyOf(w)] else NOTHING;
      var memory := DistinctContenders(queue, inUse, keyOf, (x: Reservation) => x.memory);
      var cold := DistinctContenders(queue, inUse, keyOf, (x: Reservation) => x.cold);
      r := WithinShare(current.memory, w.requested.memory, capacity.memory, memory)
        && WithinShare(current.cold, w.requested.cold, capacity.cold, cold);
    }

    /** Cancelled or timed out: leave the queue. */
    method GiveUpWaiting(ticket: u64)
      requires Valid(State(), capacity)
      modifies this
      ensures State() == Leave(old(State()), ticket, 0) && Valid(State(), capacity)
    {
      hide Valid;
      LeaveValid(State(), capacity, ticket, 0);
      for i := 0 to |queue|
        invariant State() == old(State())
        invariant Leave(old(State()), ticket, 0) == Leave(old(State()), ticket, i)
      {
        if queue[i].ticket == ticket {
          queue := RemoveAt(queue, i);
          return;
        }
      }
    }

    /** Dropping an outstanding permit: the subtractions are proved not to underflow and the keys to be there. */
    method ReleasePermit(permit: Permit, ghost i: nat)
      requires Valid(State(), capacity) && i < |permits| && permits[i] == permit
      modifies this
      ensures Some(State()) == Release(old(State()), i) && Valid(State(), capacity)
    {
      hide Valid;
      ReleaseValid(State(), capacity, i);
      used := SubtractFrom(used, permit.reserved).value;
      byTenant := SubtractFromMap(byTenant, permit.tenant, permit.reserved).value;
      byCollection := SubtractFromMap(byCollection, permit.collection, permit.reserved).value;
      permits := RemoveAt(permits, i);
    }
  }
}
