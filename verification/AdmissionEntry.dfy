/** Who enters the pool of `graph_admission.rs`, said about the outstanding
    permits and the queue alone: an entering request leaves the totals within
    capacity and its tenant and its collection within an equal share. */
module AdmissionEntry {
  import opened Wrappers
  import opened Bytes
  import opened Admission

  function PermitKey(byTenant: bool): Permit -> nat {
    if byTenant then TenantOf else CollectionOf
  }

  function WaiterKey(byTenant: bool): Waiter -> nat {
    if byTenant then (w: Waiter) => w.tenant else (w: Waiter) => w.collection
  }

  function Holders(permits: seq<Permit>, byTenant: bool, memory: bool): set<nat> {
    set i | 0 <= i < |permits| && Pick(memory)(permits[i].reserved) > 0 :: PermitKey(byTenant)(permits[i])
  }

  function Askers(queue: seq<Waiter>, byTenant: bool, memory: bool): set<nat> {
    set i | 0 <= i < |queue| && Pick(memory)(queue[i].requested) > 0 :: WaiterKey(byTenant)(queue[i])
  }

  /** The tenants, or collections, that hold or wait for an amount of the resource. */
  function Seekers(p: Pool, byTenant: bool, memory: bool): set<nat> {
    Holders(p.permits, byTenant, memory) + Askers(p.queue, byTenant, memory)
  }

  /** What the key of this waiter would hold once it entered. */
  function HeldThen(p: Pool, w: Waiter, byTenant: bool, memory: bool): nat {
    Pick(memory)(Share(p.permits, PermitKey(byTenant), WaiterKey(byTenant)(w))) + Pick(memory)(w.requested)
  }

  /** If all that seek the resource held as much, the capacity would cover it. */
  predicate EqualShares(p: Pool, capacity: Reservation, w: Waiter, byTenant: bool, memory: bool) {
    Pick(memory)(w.requested) == 0 ||
    |Seekers(p, byTenant, memory)| * HeldThen(p, w, byTenant, memory) <= Pick(memory)(capacity)
  }

  predicate Room(p: Pool, capacity: Reservation, w: Waiter, memory: bool) {
    Pick(memory)(Total(p.permits)) + Pick(memory)(w.requested) <= Pick(memory)(capacity)
  }

  predicate MayEnter(p: Pool, capacity: Reservation, w: Waiter) {
    && Room(p, capacity, w, true) && Room(p, capacity, w, false)
    && EqualShares(p, capacity, w, true, true) && EqualShares(p, capacity, w, true, false)
    && EqualShares(p, capacity, w, false, true) && EqualShares(p, capacity, w, false, false)
  }

  // ----- The maps name the holders -----

  lemma {:induction false} HoldersSnoc(permits: seq<Permit>, x: Permit, byTenant: bool, memory: bool)
    ensures Holders(permits + [x], byTenant, memory) ==
      Holders(permits, byTenant, memory) + (if Pick(memory)(x.reserved) > 0 then {PermitKey(byTenant)(x)} else {})
  {
    var all := permits + [x];
    forall k | k in Holders(permits, byTenant, memory) ensures k in Holders(all, byTenant, memory) {
      var i :| 0 <= i < |permits| && Pick(memory)(permits[i].reserved) > 0 && PermitKey(byTenant)(permits[i]) == k;
      assert all[i] == permits[i];
    }
    if Pick(memory)(x.reserved) > 0 {
      assert all[|permits|] == x;
      assert PermitKey(byTenant)(x) in Holders(all, byTenant, memory);
    }
  }

  /** A key holds an amount exactly when one of its permits does. */
  lemma {:induction false} HoldsAmount(permits: seq<Permit>, byTenant: bool, memory: bool, key: nat)
    ensures key in Holders(permits, byTenant, memory) <==> Pick(memory)(Share(permits, PermitKey(byTenant), key)) > 0
    decreases |permits|
  {
    hide Holders, Share;
    if permits == [] {
      EmptyShare(PermitKey(byTenant), key);
      NoHolders(byTenant, memory);
    } else {
      var n := |permits| - 1;
      assert permits == permits[..n] + [permits[n]];
      HoldsAmount(permits[..n], byTenant, memory, key);
      HoldersSnoc(permits[..n], permits[n], byTenant, memory);
      ShareSnoc(permits[..n], PermitKey(byTenant), key, permits[n]);
    }
  }

  lemma {:induction false} NoHolders(byTenant: bool, memory: bool)
    ensures Holders([], byTenant, memory) == {}
  {
  }

  function MapOf(p: Pool, byTenant: bool): map<nat, Reservation> {
    if byTenant then p.byTenant else p.byCollection
  }

  lemma {:induction false} MapHolds(p: Pool, capacity: Reservation, byTenant: bool)
    requires Valid(p, capacity)
    ensures MapExact(MapOf(p, byTenant), p.permits, PermitKey(byTenant))
  {
  }

  lemma {:induction false} InUseExact(p: Pool, capacity: Reservation, byTenant: bool, memory: bool)
    requires Valid(p, capacity)
    ensures KeysInUse(MapOf(p, byTenant), Pick(memory)) == Holders(p.permits, byTenant, memory)
  {
    hide Holders, Share, Valid, MapOf;
    MapHolds(p, capacity, byTenant);
    var m := MapOf(p, byTenant);
    forall k ensures k in KeysInUse(m, Pick(memory)) <==> k in Holders(p.permits, byTenant, memory) {
      HoldsAmount(p.permits, byTenant, memory, k);
    }
  }

  lemma {:induction false} QueuedExact(queue: seq<Waiter>, byTenant: bool, memory: bool)
    ensures KeysQueued(queue, WaiterKey(byTenant), Pick(memory)) == Askers(queue, byTenant, memory)
  {
  }

  /** The keys counted by the share test are the ones that seek the resource. */
  lemma {:induction false} CountExact(p: Pool, capacity: Reservation, i: nat, byTenant: bool, memory: bool)
    requires Valid(p, capacity) && i < |p.queue| && Pick(memory)(p.queue[i].requested) > 0
    ensures ContenderCount(p.queue, MapOf(p, byTenant), WaiterKey(byTenant), Pick(memory)) ==
      |Seekers(p, byTenant, memory)| > 0
  {
    hide KeysInUse, KeysQueued, Holders, Valid;
    InUseExact(p, capacity, byTenant, memory);
    QueuedExact(p.queue, byTenant, memory);
    assert WaiterKey(byTenant)(p.queue[i]) in Askers(p.queue, byTenant, memory);
    assert WaiterKey(byTenant)(p.queue[i]) in Seekers(p, byTenant, memory);
  }

  // ----- The share test -----

  lemma {:induction false} DivideExact(x: nat, c: nat, n: nat)
    requires n > 0
    ensures x <= c / n <==> n * x <= c
  {
    var q := c / n;
    assert c == n * q + c % n;
    if x <= q {
      assert n * x <= n * q;
    } else {
      assert n * x >= n * (q + 1) == n * q + n;
    }
  }

  function CurrentOf(p: Pool, byTenant: bool, key: nat): Reservation {
    if key in MapOf(p, byTenant) then MapOf(p, byTenant)[key] else NOTHING
  }

  lemma {:induction false} CurrentExact(p: Pool, capacity: Reservation, byTenant: bool, key: nat)
    requires Valid(p, capacity)
    ensures CurrentOf(p, byTenant, key) == Share(p.permits, PermitKey(byTenant), key)
  {
    hide Share, Valid, MapOf;
    MapHolds(p, capacity, byTenant);
  }

  /** One resource of the share test, where nothing saturates. */
  lemma {:induction false} ShareTest(p: Pool, capacity: Reservation, i: nat, byTenant: bool, memory: bool)
    requires Valid(p, capacity) && i < |p.queue| && Room(p, capacity, p.queue[i], memory)
    requires Pick(memory)(capacity) < U64_LIMIT
    ensures var w := p.queue[i];
      WithinShare(Pick(memory)(CurrentOf(p, byTenant, WaiterKey(byTenant)(w))), Pick(memory)(w.requested),
        Pick(memory)(capacity), ContenderCount(p.queue, MapOf(p, byTenant), WaiterKey(byTenant), Pick(memory)))
      <==> EqualShares(p, capacity, w, byTenant, memory)
  {
    hide Share, Total, Valid, MapOf, Seekers, ContenderCount;
    var w := p.queue[i];
    var key := WaiterKey(byTenant)(w);
    CurrentExact(p, capacity, byTenant, key);
    ShareBelowTotal(p.permits, PermitKey(byTenant), key);
    if Pick(memory)(w.requested) > 0 {
      CountExact(p, capacity, i, byTenant, memory);
      DivideExact(HeldThen(p, w, byTenant, memory), Pick(memory)(capacity), |Seekers(p, byTenant, memory)|);
    }
  }

  lemma {:induction false} FairTest(p: Pool, capacity: Reservation, i: nat, byTenant: bool)
    requires Valid(p, capacity) && i < |p.queue| && capacity.memory < U64_LIMIT && capacity.cold < U64_LIMIT
    requires Room(p, capacity, p.queue[i], true) && Room(p, capacity, p.queue[i], false)
    ensures FitsFairShare(p.queue[i], p.queue, MapOf(p, byTenant), capacity, WaiterKey(byTenant)) <==>
      EqualShares(p, capacity, p.queue[i], byTenant, true) && EqualShares(p, capacity, p.queue[i], byTenant, false)
  {
    hide Valid, EqualShares, Room, ContenderCount, WaiterKey, MapOf;
    ShareTest(p, capacity, i, byTenant, true);
    ShareTest(p, capacity, i, byTenant, false);
    Picks();
  }

  lemma {:induction false} Picks()
    ensures Pick(true) == ((r: Reservation) => r.memory) && Pick(false) == ((r: Reservation) => r.cold)
  {
  }

  lemma {:induction false} RoomExact(p: Pool, capacity: Reservation, i: nat)
    requires Valid(p, capacity) && Countable(capacity) && i < |p.queue|
    ensures FitsTotal(p.used, p.queue[i].requested, capacity) <==>
      Room(p, capacity, p.queue[i], true) && Room(p, capacity, p.queue[i], false)
  {
    hide Total;
    if FitsTotal(p.used, p.queue[i].requested, capacity) {
      NoSaturation(p, capacity, p.queue[i]);
    }
  }

  /** A waiter passes the three tests exactly when it may enter. */
  lemma {:induction false} AdmissibleExact(p: Pool, capacity: Reservation, i: nat)
    requires Valid(p, capacity) && Countable(capacity) && i < |p.queue|
    ensures Admissible(p, capacity, p.queue[i]) <==> MayEnter(p, capacity, p.queue[i])
  {
    hide Valid, FitsTotal, FitsFairShare, EqualShares, Room;
    RoomExact(p, capacity, i);
    if Room(p, capacity, p.queue[i], true) && Room(p, capacity, p.queue[i], false) {
      FairTest(p, capacity, i, true);
      FairTest(p, capacity, i, false);
      Keys(p);
    }
  }

  lemma {:induction false} Keys(p: Pool)
    ensures WaiterKey(true) == ((w: Waiter) => w.tenant) && WaiterKey(false) == ((w: Waiter) => w.collection)
    ensures MapOf(p, true) == p.byTenant && MapOf(p, false) == p.byCollection
  {
  }

  // ----- Entering -----

  /** The waiter at `i` is the first that may enter. */
  predicate NextIn(p: Pool, capacity: Reservation, i: nat) {
    && i < |p.queue| && MayEnter(p, capacity, p.queue[i])
    && forall j :: 0 <= j < i ==> !MayEnter(p, capacity, p.queue[j])
  }

  function PermitFor(w: Waiter): Permit {
    Permit(w.tenant, w.collection, w.requested)
  }

  /** What the waiter's key holds in the pool, when it entered with those that sought the resource before. */
  predicate KeptShare(before: Pool, after: Pool, capacity: Reservation, w: Waiter, byTenant: bool, memory: bool) {
    var held := Pick(memory)(Share(after.permits, PermitKey(byTenant), WaiterKey(byTenant)(w)));
    && held == HeldThen(before, w, byTenant, memory)
    && (Pick(memory)(w.requested) > 0 ==> |Seekers(before, byTenant, memory)| * held <= Pick(memory)(capacity))
  }

  lemma {:induction false} FirstExact(p: Pool, capacity: Reservation, i: nat)
    requires Valid(p, capacity) && Countable(capacity)
    ensures FirstAdmissible(p, capacity, 0) == Some(i) <==> NextIn(p, capacity, i)
  {
    hide Valid, Countable, Admissible, MayEnter;
    forall j | 0 <= j < |p.queue| ensures Admissible(p, capacity, p.queue[j]) <==> MayEnter(p, capacity, p.queue[j]) {
      AdmissibleExact(p, capacity, j);
    }
    FirstMayEnter(p, capacity, 0);
  }

  /** The first waiter that may enter gets its permit and leaves the queue; the totals stay within capacity and its
      tenant and its collection hold no more than an equal share. Anyone else's attempt changes nothing. */
  lemma {:induction false} EntryExact(p: Pool, capacity: Reservation, i: nat, ticket: u64)
    requires Valid(p, capacity) && Countable(capacity) && NextIn(p, capacity, i)
    ensures var w, q := p.queue[i], Admit(p, capacity, ticket);
      && (ticket != w.ticket ==> q == p)
      && (ticket == w.ticket ==>
            && q.permits == p.permits + [PermitFor(w)]
            && q.queue == p.queue[..i] + p.queue[i + 1..]
            && q.nextTicket == p.nextTicket
            && Total(q.permits).memory <= capacity.memory && Total(q.permits).cold <= capacity.cold
            && KeptShare(p, q, capacity, w, true, true) && KeptShare(p, q, capacity, w, true, false)
            && KeptShare(p, q, capacity, w, false, true) && KeptShare(p, q, capacity, w, false, false))
  {
    hide Valid, Countable, Admissible, KeptShare, AddTo, AddToMap, FirstAdmissible, EqualShares, Room;
    FirstExact(p, capacity, i);
    var w := p.queue[i];
    if ticket == w.ticket {
      var q := Admit(p, capacity, ticket);
      AdmitValid(p, capacity, ticket);
      ValidTotals(q, capacity);
      ShareKept(p, q, capacity, w, true, true);
      ShareKept(p, q, capacity, w, true, false);
      ShareKept(p, q, capacity, w, false, true);
      ShareKept(p, q, capacity, w, false, false);
    }
  }

  lemma {:induction false} ValidTotals(p: Pool, capacity: Reservation)
    requires Valid(p, capacity)
    ensures Total(p.permits).memory <= capacity.memory && Total(p.permits).cold <= capacity.cold
  {
  }

  lemma {:induction false} ShareKept(p: Pool, q: Pool, capacity: Reservation, w: Waiter, byTenant: bool, memory: bool)
    requires q.permits == p.permits + [PermitFor(w)] && EqualShares(p, capacity, w, byTenant, memory)
    ensures KeptShare(p, q, capacity, w, byTenant, memory)
  {
    hide Share, Seekers;
    ShareSnoc(p.permits, PermitKey(byTenant), WaiterKey(byTenant)(w), PermitFor(w));
  }

  /** Where nobody may enter, nobody does. */
  lemma {:induction false} NobodyEnters(p: Pool, capacity: Reservation, ticket: u64)
    requires Valid(p, capacity) && Countable(capacity)
    requires forall i :: 0 <= i < |p.queue| ==> !MayEnter(p, capacity, p.queue[i])
    ensures Admit(p, capacity, ticket) == p
  {
    hide Valid, Countable, Admissible, MayEnter;
    if i: nat :| FirstAdmissible(p, capacity, 0) == Some(i) {
      FirstExact(p, capacity, i);
    }
  }

  // ----- An idle pool -----

  predicate IdleShare(p: Pool, capacity: Reservation, w: Waiter, byTenant: bool, memory: bool) {
    Pick(memory)(w.requested) == 0 ||
    |Askers(p.queue, byTenant, memory)| * Pick(memory)(w.requested) <= Pick(memory)(capacity)
  }

  /** The request, multiplied by the tenants that wait, and by the collections that wait, fits the capacity. */
  predicate IdleFits(p: Pool, capacity: Reservation, w: Waiter) {
    && IdleShare(p, capacity, w, true, true) && IdleShare(p, capacity, w, true, false)
    && IdleShare(p, capacity, w, false, true) && IdleShare(p, capacity, w, false, false)
  }

  lemma {:induction false} IdleShares(p: Pool, capacity: Reservation, w: Waiter, byTenant: bool, memory: bool)
    requires p.permits == []
    ensures EqualShares(p, capacity, w, byTenant, memory) <==> IdleShare(p, capacity, w, byTenant, memory)
  {
    EmptyShare(PermitKey(byTenant), WaiterKey(byTenant)(w));
    NoHolders(byTenant, memory);
    assert Seekers(p, byTenant, memory) == Askers(p.queue, byTenant, memory);
  }

  /** With no permit outstanding a queued request enters in its turn exactly when every waiting tenant and every
      waiting collection could be given as much; otherwise it waits although nothing is in use. */
  lemma {:induction false} IdleExact(p: Pool, capacity: Reservation, i: nat)
    requires Valid(p, capacity) && Countable(capacity) && i < |p.queue| && p.permits == []
    ensures Admissible(p, capacity, p.queue[i]) <==> IdleFits(p, capacity, p.queue[i])
  {
    hide Admissible, EqualShares, IdleShare, Seekers;
    AdmissibleExact(p, capacity, i);
    EmptyTotal(p.permits);
    var w := p.queue[i];
    IdleShares(p, capacity, w, true, true);
    IdleShares(p, capacity, w, true, false);
    IdleShares(p, capacity, w, false, true);
    IdleShares(p, capacity, w, false, false);
    assert 0 < w.requested.memory <= capacity.memory && w.requested.cold <= capacity.cold;
  }

  /** Two tenants that each wait for more than half of the memory keep each other out of an idle pool. */
  lemma {:induction false} IdleStall(p: Pool, capacity: Reservation, ticket: u64)
    requires Valid(p, capacity) && Countable(capacity) && p.permits == [] && |p.queue| == 2
    requires p.queue[0].tenant != p.queue[1].tenant
    requires forall i :: 0 <= i < 2 ==> 2 * p.queue[i].requested.memory > capacity.memory
    ensures Admit(p, capacity, ticket) == p
  {
    hide Valid, Countable, Admissible, MayEnter;
    var a, b := p.queue[0], p.queue[1];
    TwoAskers(p.queue, capacity);
    forall i | 0 <= i < |p.queue| ensures !MayEnter(p, capacity, p.queue[i]) {
      IdleExact(p, capacity, i);
      AdmissibleExact(p, capacity, i);
    }
    NobodyEnters(p, capacity, ticket);
  }

  lemma {:induction false} TwoAskers(queue: seq<Waiter>, capacity: Reservation)
    requires |queue| == 2 && queue[0].tenant != queue[1].tenant
    requires forall i :: 0 <= i < 2 ==> 2 * queue[i].requested.memory > capacity.memory
    ensures |Askers(queue, true, true)| == 2
  {
    var all := Askers(queue, true, true);
    assert queue[0].tenant in all && queue[1].tenant in all;
    assert all == {queue[0].tenant, queue[1].tenant};
  }
}
