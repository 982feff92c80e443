/** The posting merge of `bm25.rs` (`rank_postings`): the id-sorted lists of the
    query terms are walked together, smallest id first. Scores are real sums of
    an arbitrary term weight; the bounded heap is represented by what is pushed. */
module PostingMerge {
  import opened Wrappers

  /** Ids are compared by their order only, so numbers stand for them. */
  datatype Posting = Posting(id: nat, tf: nat)

  /** One query term: its inverse document frequency and its postings. */
  datatype List = List(idf: real, postings: seq<Posting>)

  predicate Ascending(postings: seq<Posting>) {
    forall i, j :: 0 <= i < j < |postings| ==> postings[i].id < postings[j].id
  }

  predicate AllAscending(lists: seq<List>) {
    forall k :: 0 <= k < |lists| ==> Ascending(lists[k].postings)
  }

  predicate Holds(list: List, id: nat) {
    exists i :: 0 <= i < |list.postings| && list.postings[i].id == id
  }

  /** Some query term's list holds the id. */
  predicate InUnion(lists: seq<List>, id: nat) {
    exists k :: 0 <= k < |lists| && Holds(lists[k], id)
  }

  /** The frequency a list gives for an id, the first one should it repeat. */
  function FrequencyIn(postings: seq<Posting>, id: nat): nat {
    if postings == [] then 0 else if postings[0].id == id then postings[0].tf else FrequencyIn(postings[1..], id)
  }

  type Weight = (real, nat, nat) -> real

  /** The score of an id: the weights of exactly the terms whose list holds it, in list order. */
  function Score(lists: seq<List>, id: nat, weight: Weight): real {
    if lists == [] then 0.0
    else
      var n := |lists| - 1;
      Score(lists[..n], id, weight) + (if Holds(lists[n], id)
        then weight(lists[n].idf, FrequencyIn(lists[n].postings, id), id) else 0.0)
  }

  predicate Increasing(ids: seq<nat>) {
    forall i, j :: 0 <= i < j < |ids| ==> ids[i] < ids[j]
  }

  type Candidate = nat -> Option<nat>

  function Push(id: nat, lists: seq<List>, candidate: Candidate, weight: Weight): seq<(nat, real)> {
    if candidate(id).Some? then [(candidate(id).value, Score(lists, id, weight))] else []
  }

  /** What the visited ids push: public id and score of each admitted one. */
  function Pushes(visited: seq<nat>, lists: seq<List>, candidate: Candidate, weight: Weight): seq<(nat, real)> {
    if visited == [] then []
    else
      var id := visited[|visited| - 1];
      Pushes(visited[..|visited| - 1], lists, candidate, weight) + Push(id, lists, candidate, weight)
  }

  // ----- Cursors -----

  predicate InBounds(lists: seq<List>, at: seq<nat>) {
    |at| == |lists| && forall k :: 0 <= k < |lists| ==> at[k] <= |lists[k].postings|
  }

  /** Each cursor stands just after the postings with ids up to `bound`. */
  ghost predicate CursorsAt(lists: seq<List>, at: seq<nat>, bound: int) {
    && InBounds(lists, at)
    && (forall k, i :: 0 <= k < |lists| && 0 <= i < at[k] ==> lists[k].postings[i].id <= bound)
    && (forall k, i :: 0 <= k < |lists| && at[k] <= i < |lists[k].postings| ==> lists[k].postings[i].id > bound)
  }

  /** The smallest id at any cursor. */
  method NextId(lists: seq<List>, at: seq<nat>) returns (r: Option<nat>)
    requires InBounds(lists, at)
    ensures r.None? ==> forall k :: 0 <= k < |lists| ==> at[k] == |lists[k].postings|
    ensures r.Some? ==>
      && (exists k :: 0 <= k < |lists| && at[k] < |lists[k].postings| && lists[k].postings[at[k]].id == r.value)
      && (forall k :: 0 <= k < |lists| && at[k] < |lists[k].postings| ==> r.value <= lists[k].postings[at[k]].id)
  {
    r := None;
    for n := 0 to |lists|
      invariant r.None? ==> forall k :: 0 <= k < n ==> at[k] == |lists[k].postings|
      invariant r.Some? ==>
        && (exists k :: 0 <= k < n && at[k] < |lists[k].postings| && lists[k].postings[at[k]].id == r.value)
        && (forall k :: 0 <= k < n && at[k] < |lists[k].postings| ==> r.value <= lists[k].postings[at[k]].id)
    {
      if at[n] < |lists[n].postings| {
        var id := lists[n].postings[at[n]].id;
        if r.None? || id < r.value {
          r := Some(id);
        }
      }
    }
  }

  /** The next id is the least one above the bound that any list holds. */
  lemma {:induction false} NextIsLeast(lists: seq<List>, at: seq<nat>, bound: int, id: nat)
    requires AllAscending(lists) && CursorsAt(lists, at, bound)
    requires exists k :: 0 <= k < |lists| && at[k] < |lists[k].postings| && lists[k].postings[at[k]].id == id
    requires forall k :: 0 <= k < |lists| && at[k] < |lists[k].postings| ==> id <= lists[k].postings[at[k]].id
    ensures bound < id && InUnion(lists, id)
    ensures forall other: nat :: InUnion(lists, other) && bound < other ==> id <= other
    ensures forall k :: 0 <= k < |lists| ==>
      (Holds(lists[k], id) <==> at[k] < |lists[k].postings| && lists[k].postings[at[k]].id == id)
  {
    var k0 :| 0 <= k0 < |lists| && at[k0] < |lists[k0].postings| && lists[k0].postings[at[k0]].id == id;
    assert Holds(lists[k0], id);
    forall other: nat | InUnion(lists, other) && bound < other ensures id <= other {
      var k :| 0 <= k < |lists| && Holds(lists[k], other);
      HolderAhead(lists, at, bound, k, other);
    }
    forall k | 0 <= k < |lists| ensures Holds(lists[k], id) <==>
      && at[k] < |lists[k].postings|
      && lists[k].postings[at[k]].id == id {
      if Holds(lists[k], id) {
        HolderAhead(lists, at, bound, k, id);
      }
    }
  }

  lemma {:induction false} HolderAhead(lists: seq<List>, at: seq<nat>, bound: int, k: nat, id: nat)
    requires AllAscending(lists) && CursorsAt(lists, at, bound) && k < |lists| && Holds(lists[k], id) && bound < id
    ensures at[k] < |lists[k].postings| && lists[k].postings[at[k]].id <= id
  {
    var i :| 0 <= i < |lists[k].postings| && lists[k].postings[i].id == id;
    assert at[k] <= i;
    assert Ascending(lists[k].postings);
  }

  lemma {:induction false} FrequencyAt(postings: seq<Posting>, i: nat)
    requires Ascending(postings) && i < |postings|
    ensures FrequencyIn(postings, postings[i].id) == postings[i].tf
  {
    if i > 0 {
      assert postings[0].id < postings[i].id;
      FrequencyAt(postings[1..], i - 1);
    }
  }

  /** Advance the cursors that stand on `id`, adding up the weights of their terms. */
  method TakeId(lists: seq<List>, at: seq<nat>, ghost bound: int, id: nat, admitted: bool, weight: Weight)
    returns (next: seq<nat>, score: real)
    requires AllAscending(lists) && CursorsAt(lists, at, bound) && bound < id
    requires forall k :: 0 <= k < |lists| ==>
      (Holds(lists[k], id) <==> at[k] < |lists[k].postings| && lists[k].postings[at[k]].id == id)
    requires forall k :: 0 <= k < |lists| && at[k] < |lists[k].postings| ==> id <= lists[k].postings[at[k]].id
    ensures CursorsAt(lists, next, id) && InBounds(lists, next)
    ensures forall k :: 0 <= k < |lists| ==> at[k] <= next[k] && (Holds(lists[k], id) ==> at[k] < next[k])
    ensures admitted ==> score == Score(lists, id, weight)
  {
    hide Score, FrequencyIn;
    next := at;
    score := 0.0;
    EmptyScore(id, weight);
    for n := 0 to |lists|
      invariant |next| == |lists|
      invariant forall k :: 0 <= k < |lists| ==> next[k] == if k < n && Holds(lists[k], id) then at[k] + 1 else at[k]
      invariant admitted ==> score == Score(lists[..n], id, weight)
    {
      ScoreStep(lists, n, id, weight);
      if next[n] < |lists[n].postings| && lists[n].postings[next[n]].id == id {
        if admitted {
          FrequencyAt(lists[n].postings, at[n]);
          score := score + weight(lists[n].idf, lists[n].postings[next[n]].tf, id);
        }
        next := next[n := next[n] + 1];
      }
    }
    assert lists[..|lists|] == lists;
    Advanced(lists, at, bound, id, next);
  }

  lemma {:induction false} EmptyScore(id: nat, weight: Weight)
    ensures Score([], id, weight) == 0.0
  {
  }

  lemma {:induction false} ScoreStep(lists: seq<List>, n: nat, id: nat, weight: Weight)
    requires n < |lists|
    ensures lists[..0] == []
    ensures Score(lists[..n + 1], id, weight) == Score(lists[..n], id, weight)
      + (if Holds(lists[n], id) then weight(lists[n].idf, FrequencyIn(lists[n].postings, id), id) else 0.0)
  {
    assert lists[..n + 1][..n] == lists[..n];
  }

  lemma {:induction false} Advanced(lists: seq<List>, at: seq<nat>, bound: int, id: nat, next: seq<nat>)
    requires AllAscending(lists) && CursorsAt(lists, at, bound) && bound < id && |next| == |lists|
    requires forall k :: 0 <= k < |lists| ==>
      (Holds(lists[k], id) <==> at[k] < |lists[k].postings| && lists[k].postings[at[k]].id == id)
    requires forall k :: 0 <= k < |lists| && at[k] < |lists[k].postings| ==> id <= lists[k].postings[at[k]].id
    requires forall k :: 0 <= k < |lists| ==> next[k] == if Holds(lists[k], id) then at[k] + 1 else at[k]
    ensures CursorsAt(lists, next, id)
  {
    forall k, i | 0 <= k < |lists| && next[k] <= i < |lists[k].postings| ensures lists[k].postings[i].id > id {
      assert Ascending(lists[k].postings);
      assert lists[k].postings[at[k]].id >= id;
      if i > at[k] {
        assert lists[k].postings[at[k]].id < lists[k].postings[i].id;
      }
    }
  }

  function Remaining(lists: seq<List>, at: seq<nat>): nat
    requires InBounds(lists, at)
  {
    if lists == [] then 0 else |lists[0].postings| - at[0] + Remaining(lists[1..], at[1..])
  }

  lemma {:induction false} RemainingFalls(lists: seq<List>, at: seq<nat>, next: seq<nat>, k: nat)
    requires |at| == |next| == |lists| && k < |lists|
    requires forall j :: 0 <= j < |lists| ==> at[j] <= next[j] <= |lists[j].postings|
    requires at[k] < next[k]
    ensures Remaining(lists, next) < Remaining(lists, at)
  {
    if k == 0 {
      RemainingWeak(lists[1..], at[1..], next[1..]);
    } else {
      RemainingFalls(lists[1..], at[1..], next[1..], k - 1);
    }
  }

  lemma {:induction false} RemainingWeak(lists: seq<List>, at: seq<nat>, next: seq<nat>)
    requires |at| == |next| == |lists|
    requires forall j :: 0 <= j < |lists| ==> at[j] <= next[j] <= |lists[j].postings|
    ensures Remaining(lists, next) <= Remaining(lists, at)
  {
    if lists != [] {
      RemainingWeak(lists[1..], at[1..], next[1..]);
    }
  }

  // ----- The merge -----

  /** Every id of the union up to the last visited one has been visited, once, in ascending order. */
  ghost predicate Visited(lists: seq<List>, visited: seq<nat>, bound: int) {
    && Increasing(visited)
    && (forall i :: 0 <= i < |visited| ==> visited[i] <= bound)
    && (forall id: nat :: InUnion(lists, id) && id <= bound <==> id in visited)
  }

  lemma {:induction false} VisitNext(lists: seq<List>, visited: seq<nat>, bound: int, id: nat)
    requires Visited(lists, visited, bound) && bound < id && InUnion(lists, id)
    requires forall other: nat :: InUnion(lists, other) && bound < other ==> id <= other
    ensures Visited(lists, visited + [id], id)
  {
    hide InUnion;
    var more := visited + [id];
    forall other: nat ensures InUnion(lists, other) && other <= id <==> other in more {
      if InUnion(lists, other) && other <= id && other > bound {
        assert other == id;
      }
    }
  }

  /** One round: the smallest id at any cursor, and what it pushes. */
  method Round(lists: seq<List>, at: seq<nat>, ghost bound: int, candidate: Candidate, weight: Weight)
    returns (id: Option<nat>, push: seq<(nat, real)>, next: seq<nat>)
    requires AllAscending(lists) && InBounds(lists, at) && CursorsAt(lists, at, bound)
    ensures id.None? ==> forall other: nat :: InUnion(lists, other) ==> other <= bound
    ensures id.Some? ==>
      && InBounds(lists, next) && CursorsAt(lists, next, id.value) && Remaining(lists, next) < Remaining(lists, at)
      && bound < id.value && InUnion(lists, id.value)
      && (forall other: nat :: InUnion(lists, other) && bound < other ==> id.value <= other)
      && push == Push(id.value, lists, candidate, weight)
  {
    hide Score, InUnion, Holds, AllAscending, CursorsAt, Remaining;
    id := NextId(lists, at);
    push, next := [], at;
    if id.None? {
      AllSeen(lists, at, bound);
      return;
    }
    NextIsLeast(lists, at, bound, id.value);
    var public := candidate(id.value);
    var score;
    next, score := TakeId(lists, at, bound, id.value, public.Some?, weight);
    ghost var k :| 0 <= k < |lists| && at[k] < |lists[k].postings| && lists[k].postings[at[k]].id == id.value;
    RemainingFalls(lists, at, next, k);
    if public.Some? {
      push := [(public.value, score)];
    }
  }

  /** The first `n` rounds were allowed. */
  ghost predicate Allowed(proceed: nat -> bool, n: nat) {
    forall round :: 0 <= round < n ==> proceed(round)
  }

  /** The merge ends. Unless it was told to stop, it has visited every id of the union exactly once in
      ascending order; stopped early, it has visited all of them up to some id. Each admitted id is counted
      once and pushed once, with the score of exactly the terms that hold it. `proceed` answers by the round. */
  method RankPostings(lists: seq<List>, candidate: Candidate, weight: Weight, proceed: nat -> bool)
    returns (visited: seq<nat>, pushed: seq<(nat, real)>, searched: nat, degraded: bool)
    requires AllAscending(lists)
    ensures Increasing(visited)
    ensures forall id: nat :: id in visited ==> InUnion(lists, id)
    ensures forall id: nat, last: nat :: last in visited && InUnion(lists, id) && id <= last ==> id in visited
    ensures !degraded ==> forall id: nat :: InUnion(lists, id) ==> id in visited
    ensures pushed == Pushes(visited, lists, candidate, weight) && searched == |pushed|
    ensures Allowed(proceed, |visited|) && degraded == !proceed(|visited|)
  {
    hide Score, InUnion, AllAscending, Pushes, CursorsAt, Visited, Increasing, Remaining, InBounds, Allowed, Push;
    var at: seq<nat> := seq(|lists|, _ => 0);
    visited, pushed, searched, degraded := [], [], 0, false;
    ghost var bound: int := -1;
    NothingVisited(lists, at, candidate, weight, proceed);
    while true
      invariant InBounds(lists, at) && CursorsAt(lists, at, bound) && Visited(lists, visited, bound)
      invariant pushed == Pushes(visited, lists, candidate, weight) && searched == |pushed|
      invariant Allowed(proceed, |visited|)
      decreases Remaining(lists, at)
    {
      if !proceed(|visited|) {
        VisitedMeans(lists, visited, bound);
        return visited, pushed, searched, true;
      }
      var id, push, next := Round(lists, at, bound, candidate, weight);
      if id.None? {
        VisitedMeans(lists, visited, bound);
        return visited, pushed, searched, false;
      }
      VisitNext(lists, visited, bound, id.value);
      PushNext(visited, id.value, lists, candidate, weight);
      AllowNext(proceed, |visited|);
      visited, pushed, searched := visited + [id.value], pushed + push, searched + |push|;
      at, bound := next, id.value;
    }
  }

  lemma {:induction false} AllowNext(proceed: nat -> bool, n: nat)
    requires Allowed(proceed, n) && proceed(n)
    ensures Allowed(proceed, n + 1)
  {
  }

  lemma {:induction false} VisitedMeans(lists: seq<List>, visited: seq<nat>, bound: int)
    requires Visited(lists, visited, bound)
    ensures Increasing(visited)
    ensures forall id: nat :: id in visited ==> InUnion(lists, id)
    ensures forall id: nat, last: nat :: last in visited && InUnion(lists, id) && id <= last ==> id in visited
    ensures forall id: nat :: InUnion(lists, id) && id <= bound ==> id in visited
  {
    hide InUnion;
  }

  lemma {:induction false} NothingVisited(
    lists: seq<List>, at: seq<nat>, candidate: Candidate, weight: Weight, proceed: nat -> bool)
    requires |at| == |lists| && forall k :: 0 <= k < |lists| ==> at[k] == 0
    ensures InBounds(lists, at) && CursorsAt(lists, at, -1) && Visited(lists, [], -1)
    ensures Pushes([], lists, candidate, weight) == [] && Allowed(proceed, 0)
  {
  }

  lemma {:induction false} AllSeen(lists: seq<List>, at: seq<nat>, bound: int)
    requires CursorsAt(lists, at, bound) && forall k :: 0 <= k < |lists| ==> at[k] == |lists[k].postings|
    ensures forall id: nat :: InUnion(lists, id) ==> id <= bound
  {
    forall id: nat | InUnion(lists, id) ensures id <= bound {
      var k :| 0 <= k < |lists| && Holds(lists[k], id);
      var i :| 0 <= i < |lists[k].postings| && lists[k].postings[i].id == id;
      assert i < at[k];
    }
  }

  lemma {:induction false} PushNext(visited: seq<nat>, id: nat, lists: seq<List>, candidate: Candidate, weight: Weight)
    ensures Pushes(visited + [id], lists, candidate, weight) == Pushes(visited, lists, candidate, weight)
      + Push(id, lists, candidate, weight)
  {
    assert (visited + [id])[..|visited|] == visited;
  }
}
