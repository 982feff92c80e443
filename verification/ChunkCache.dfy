/** The two-queue chunk cache of `encryption.rs`: new chunks are on probation,
    a hit earns promotion to the main queue, and the main queue is a clock with
    second chances. The value-level functions say what each operation does; the
    class updates its fields in place and is proved to do just that. */
module ChunkCache {
  import opened Wrappers
  import opened Bytes

  const PROBATION_BYTES: nat := 8388608
  const MAIN_BYTES: nat := 58720256
  const PRESSURE_TARGET_BYTES: nat := 33554432

  /** The longest chunk a file may have. */
  const CHUNK_BYTES: nat := 4194304

  type Key = (nat, nat)

  datatype Entry = Entry(content: bytes, referenced: bool)

  datatype Cache = Cache(chunks: map<Key, Entry>, probation: seq<Key>, main: seq<Key>, bytes: nat, probationBytes: nat,
    mainBytes: nat)

  const EMPTY: Cache := Cache(map[], [], [], 0, 0, 0)

  // ----- Sizes -----

  function SizeOf(chunks: map<Key, Entry>, key: Key): nat {
    if key in chunks then |chunks[key].content| else 0
  }

  function Sum(chunks: map<Key, Entry>, keys: seq<Key>): nat {
    if keys == [] then 0 else SizeOf(chunks, keys[0]) + Sum(chunks, keys[1..])
  }

  lemma {:induction false} SumConcat(chunks: map<Key, Entry>, a: seq<Key>, b: seq<Key>)
    ensures Sum(chunks, a + b) == Sum(chunks, a) + Sum(chunks, b)
  {
    if a == [] {
      assert a + b == b;
    } else {
      SumConcat(chunks, a[1..], b);
      assert (a + b)[1..] == a[1..] + b;
    }
  }

  lemma {:induction false} SumOne(chunks: map<Key, Entry>, key: Key)
    ensures Sum(chunks, [key]) == SizeOf(chunks, key)
  {
    var one: seq<Key> := [key];
    assert one[1..] == [];
  }

  /** Only the sizes of the listed chunks matter. */
  lemma {:induction false} SumSame(chunks: map<Key, Entry>, chunks': map<Key, Entry>, keys: seq<Key>)
    requires forall k :: k in keys ==> SizeOf(chunks, k) == SizeOf(chunks', k)
    ensures Sum(chunks, keys) == Sum(chunks', keys)
  {
    if keys != [] {
      assert keys[0] in keys;
      assert forall k :: k in keys[1..] ==> k in keys;
      SumSame(chunks, chunks', keys[1..]);
    }
  }

  function SaturatingSub(a: nat, b: nat): nat {
    if a < b then 0 else a - b
  }

  // ----- Eviction -----

  function Unreferenced(chunks: map<Key, Entry>, key: Key): map<Key, Entry>
    requires key in chunks
  {
    chunks[key := chunks[key].(referenced := false)]
  }

  /** One turn of the probation loop: promote a referenced chunk, drop another. */
  function ProbationTurn(c: Cache): Cache
    requires c.probation != []
  {
    var key, rest := c.probation[0], c.probation[1..];
    if key !in c.chunks then c.(probation := rest)
    else
      var size := |c.chunks[key].content|;
      if c.chunks[key].referenced then
        c.(probation := rest, chunks := Unreferenced(c.chunks, key),
          probationBytes := SaturatingSub(c.probationBytes, size),
           mainBytes := c.mainBytes + size, main := c.main + [key])
      else
        c.(probation := rest, chunks := c.chunks - {key}, probationBytes := SaturatingSub(c.probationBytes, size),
           bytes := SaturatingSub(c.bytes, size))
  }

  function EvictProbation(c: Cache): Cache
    decreases |c.probation|
  {
    if c.probationBytes > PROBATION_BYTES && c.probation != [] then EvictProbation(ProbationTurn(c)) else c
  }

  /** One turn of the main clock: a referenced chunk goes round once more, another is dropped. */
  function MainTurn(c: Cache): Cache
    requires c.main != []
  {
    var key, rest := c.main[0], c.main[1..];
    if key !in c.chunks then c.(main := rest)
    else if c.chunks[key].referenced then c.(main := rest + [key], chunks := Unreferenced(c.chunks, key))
    else
      var size := |c.chunks[key].content|;
      c.(main := rest, chunks := c.chunks - {key}, mainBytes := SaturatingSub(c.mainBytes, size),
        bytes := SaturatingSub(c.bytes, size))
  }

  /** How many second chances are left in the queue. */
  function Chances(chunks: map<Key, Entry>, keys: seq<Key>): nat {
    if keys == [] then 0
    else (if keys[0] in chunks && chunks[keys[0]].referenced then 1 else 0) + Chances(chunks, keys[1..])
  }

  lemma {:induction false} ChancesConcat(chunks: map<Key, Entry>, a: seq<Key>, b: seq<Key>)
    ensures Chances(chunks, a + b) == Chances(chunks, a) + Chances(chunks, b)
  {
    if a == [] {
      assert a + b == b;
    } else {
      ChancesConcat(chunks, a[1..], b);
      assert (a + b)[1..] == a[1..] + b;
    }
  }

  lemma {:induction false} ChancesFewer(chunks: map<Key, Entry>, chunks': map<Key, Entry>, keys: seq<Key>)
    requires forall k :: k in chunks' && chunks'[k].referenced ==> k in chunks && chunks[k].referenced
    ensures Chances(chunks', keys) <= Chances(chunks, keys)
  {
    if keys != [] {
      ChancesFewer(chunks, chunks', keys[1..]);
    }
  }

  /** Every turn of the clock uses up a second chance or shortens the queue. */
  lemma {:induction false} MainTurnProgress(c: Cache)
    requires c.main != []
    ensures var d := MainTurn(c);
      || Chances(d.chunks, d.main) < Chances(c.chunks, c.main)
      || (Chances(d.chunks, d.main) <= Chances(c.chunks, c.main) && |d.main| < |c.main|)
  {
    var d := MainTurn(c);
    var key, rest := c.main[0], c.main[1..];
    ChancesFewer(c.chunks, d.chunks, rest);
    if key in c.chunks && c.chunks[key].referenced {
      ChancesConcat(d.chunks, rest, [key]);
      var last: seq<Key> := [key];
      assert last[1..] == [];
    }
  }

  /** The clock terminates despite second chances. */
  function EvictMain(c: Cache): Cache
    decreases Chances(c.chunks, c.main), |c.main|
  {
    if c.mainBytes > MAIN_BYTES && c.main != [] then
      MainTurnProgress(c);
      EvictMain(MainTurn(c))
    else c
  }

  function Rebalance(c: Cache): Cache {
    EvictMain(EvictProbation(c))
  }

  // ----- Operations -----

  function Get(c: Cache, key: Key): (Option<bytes>, Cache) {
    if key in c.chunks
    then (Some(c.chunks[key].content), c.(chunks := c.chunks[key := c.chunks[key].(referenced := true)]))
    else (None, c)
  }

  function ShrinkTurn(c: Cache): Cache
    requires c.probation != [] || c.main != []
  {
    if c.probation != [] then
      var key, size := c.probation[0], SizeOf(c.chunks, c.probation[0]);
      c.(probation := c.probation[1..], chunks := c.chunks - {key},
        probationBytes := SaturatingSub(c.probationBytes, size),
         bytes := SaturatingSub(c.bytes, size))
    else
      var key, size := c.main[0], SizeOf(c.chunks, c.main[0]);
      c.(main := c.main[1..], chunks := c.chunks - {key}, mainBytes := SaturatingSub(c.mainBytes, size),
         bytes := SaturatingSub(c.bytes, size))
  }

  function ShrinkTo(c: Cache, target: nat): Cache
    decreases |c.probation| + |c.main|
  {
    if c.bytes > target && (c.probation != [] || c.main != []) then ShrinkTo(ShrinkTurn(c), target) else c
  }

  function Added(c: Cache, key: Key, content: bytes): Cache {
    c.(bytes := c.bytes + |content|, probationBytes := c.probationBytes + |content|,
       chunks := c.chunks[key := Entry(content, false)], probation := c.probation + [key])
  }

  /** Insertion; `admitted` is false when the memory for it was refused, which changes nothing. */
  function TryInsert(c: Cache, key: Key, content: bytes, admitted: bool, pressure: bool): Cache {
    if key in c.chunks || !admitted then c
    else
      var d := Rebalance(Added(c, key, content));
      if pressure then ShrinkTo(d, PRESSURE_TARGET_BYTES) else d
  }

  function Retain(keys: seq<Key>, id: nat): seq<Key> {
    if keys == [] then [] else (if keys[0].0 != id then [keys[0]] else []) + Retain(keys[1..], id)
  }

  function RemoveFile(c: Cache, id: nat): Cache {
    var probation, main := Retain(c.probation, id), Retain(c.main, id);
    var chunks := map k | k in c.chunks && k.0 != id :: c.chunks[k];
    var p, m := Sum(chunks, probation), Sum(chunks, main);
    Cache(chunks, probation, main, p + m, p, m)
  }

  datatype Op = Hit(key: Key) | Insert(key: Key, content: bytes, admitted: bool, pressure: bool) | Remove(id: nat)

  function Apply(c: Cache, op: Op): Cache {
    match op
    case Hit(key) => Get(c, key).1
    case Insert(key, content, admitted, pressure) => TryInsert(c, key, content, admitted, pressure)
    case Remove(id) => RemoveFile(c, id)
  }

  function Run(c: Cache, ops: seq<Op>): Cache
    decreases |ops|
  {
    if ops == [] then c else Run(Apply(c, ops[0]), ops[1..])
  }

  // ----- The invariant -----

  predicate NoDuplicates(keys: seq<Key>) {
    forall i, j :: 0 <= i < j < |keys| ==> keys[i] != keys[j]
  }

  ghost predicate Covers(chunks: map<Key, Entry>, keys: seq<Key>) {
    forall k :: k in chunks <==> k in keys
  }

  /** `keys'` lists the same keys as `keys` but for `key`. */
  ghost predicate Without(keys: seq<Key>, key: Key, keys': seq<Key>) {
    forall k :: k in keys' <==> k in keys && k != key
  }

  lemma {:induction false} CoversDrop(chunks: map<Key, Entry>, key: Key, keys: seq<Key>, keys': seq<Key>)
    requires Covers(chunks, keys) && Without(keys, key, keys')
    ensures Covers(chunks - {key}, keys')
  {
  }

  lemma {:induction false} CoversRotate(chunks: map<Key, Entry>, key: Key, keys: seq<Key>, keys': seq<Key>)
    requires Covers(chunks, keys) && key in chunks && forall k :: k in keys' <==> k in keys
    ensures Covers(Unreferenced(chunks, key), keys')
  {
  }

  /** The queues are duplicate-free and disjoint and cover the map; the counters are the true sums. */
  ghost predicate Valid(c: Cache) {
    && NoDuplicates(c.probation + c.main)
    && Covers(c.chunks, c.probation + c.main)
    && c.probationBytes == Sum(c.chunks, c.probation)
    && c.mainBytes == Sum(c.chunks, c.main)
    && c.bytes == c.probationBytes + c.mainBytes
  }

  /** Dropping the head of a queue and its chunk leaves the sums of the rest. */
  lemma {:induction false} DropSums(chunks: map<Key, Entry>, key: Key, keys: seq<Key>)
    requires key !in keys
    ensures Sum(chunks - {key}, keys) == Sum(chunks, keys)
  {
    SumSame(chunks, chunks - {key}, keys);
  }

  lemma {:induction false} UnreferencedSums(chunks: map<Key, Entry>, key: Key, keys: seq<Key>)
    requires key in chunks
    ensures Sum(Unreferenced(chunks, key), keys) == Sum(chunks, keys)
  {
    SumSame(chunks, Unreferenced(chunks, key), keys);
  }

  lemma {:induction false} HeadSplits(head: Key, rest: seq<Key>, others: seq<Key>)
    requires NoDuplicates([head] + rest + others)
    ensures head !in rest && head !in others && NoDuplicates(rest + others) && NoDuplicates(rest + (others + [head]))
    ensures Without([head] + rest + others, head, rest + others)
    ensures forall k :: k in rest + (others + [head]) <==> k in [head] + rest + others
  {
    var all := [head] + rest + others;
    forall i | 0 <= i < |rest| ensures rest[i] != head {
      assert all[i + 1] == rest[i] && all[0] == head;
    }
    forall i | 0 <= i < |others| ensures others[i] != head {
      assert all[1 + |rest| + i] == others[i] && all[0] == head;
    }
    assert rest + others == all[1..];
    assert rest + (others + [head]) == (rest + others) + [head];
  }

  lemma {:induction false} ProbationTurnValid(c: Cache)
    requires Valid(c) && c.probation != []
    ensures Valid(ProbationTurn(c))
  {
    hide NoDuplicates, Covers, Without;
    var key, rest := c.probation[0], c.probation[1..];
    assert c.probation == [key] + rest;
    HeadSplits(key, rest, c.main);
    assert key in c.chunks by { CoveredHead(c.chunks, c.probation + c.main, key); }
    if c.chunks[key].referenced {
      CoversRotate(c.chunks, key, c.probation + c.main, rest + (c.main + [key]));
      UnreferencedSums(c.chunks, key, rest);
      UnreferencedSums(c.chunks, key, c.main);
      SumConcat(Unreferenced(c.chunks, key), c.main, [key]);
      SumOne(Unreferenced(c.chunks, key), key);
    } else {
      CoversDrop(c.chunks, key, c.probation + c.main, rest + c.main);
      DropSums(c.chunks, key, rest);
      DropSums(c.chunks, key, c.main);
    }
  }

  lemma {:induction false} CoveredHead(chunks: map<Key, Entry>, keys: seq<Key>, key: Key)
    requires Covers(chunks, keys) && key in keys
    ensures key in chunks
  {
  }

  lemma {:induction false} EvictProbationValid(c: Cache)
    requires Valid(c)
    ensures Valid(EvictProbation(c)) && EvictProbation(c).probationBytes <= PROBATION_BYTES
    decreases |c.probation|
  {
    hide Valid, ProbationTurn;
    if c.probationBytes > PROBATION_BYTES {
      ProbationNonEmpty(c);
      ProbationTurnValid(c);
      assert |ProbationTurn(c).probation| < |c.probation| by { ProbationTurnShrinks(c); }
      EvictProbationValid(ProbationTurn(c));
    }
  }

  lemma {:induction false} ProbationNonEmpty(c: Cache)
    requires Valid(c) && c.probationBytes > 0
    ensures c.probation != []
  {
  }

  lemma {:induction false} ProbationTurnShrinks(c: Cache)
    requires c.probation != []
    ensures |ProbationTurn(c).probation| == |c.probation| - 1
  {
  }

  lemma {:induction false} RotatedNoDuplicates(head: Key, rest: seq<Key>, others: seq<Key>)
    requires NoDuplicates(others + ([head] + rest))
    ensures head !in rest && head !in others && NoDuplicates(others + rest) && NoDuplicates(others + (rest + [head]))
    ensures Without(others + ([head] + rest), head, others + rest)
    ensures forall k :: k in others + (rest + [head]) <==> k in others + ([head] + rest)
  {
    var all := others + ([head] + rest);
    forall i | 0 <= i < |rest| ensures rest[i] != head {
      assert all[|others| + 1 + i] == rest[i] && all[|others|] == head;
    }
    forall i | 0 <= i < |others| ensures others[i] != head {
      assert all[i] == others[i] && all[|others|] == head;
    }
    forall i, j | 0 <= i < j < |others + rest| ensures (others + rest)[i] != (others + rest)[j] {
      assert (others + rest)[i] == all[if i < |others| then i else i + 1];
      assert (others + rest)[j] == all[if j < |others| then j else j + 1];
    }
    assert others + (rest + [head]) == (others + rest) + [head];
  }

  lemma {:induction false} MainTurnValid(c: Cache)
    requires Valid(c) && c.main != []
    ensures Valid(MainTurn(c)) && MainTurn(c).probationBytes == c.probationBytes
  {
    hide NoDuplicates, Covers, Without;
    var key, rest := c.main[0], c.main[1..];
    assert c.main == [key] + rest;
    RotatedNoDuplicates(key, rest, c.probation);
    assert key in c.chunks by { CoveredHead(c.chunks, c.probation + c.main, key); }
    if c.chunks[key].referenced {
      CoversRotate(c.chunks, key, c.probation + c.main, c.probation + (rest + [key]));
      UnreferencedSums(c.chunks, key, c.probation);
      UnreferencedSums(c.chunks, key, rest);
      SumConcat(Unreferenced(c.chunks, key), rest, [key]);
      SumOne(Unreferenced(c.chunks, key), key);
    } else {
      CoversDrop(c.chunks, key, c.probation + c.main, c.probation + rest);
      DropSums(c.chunks, key, rest);
      DropSums(c.chunks, key, c.probation);
    }
  }

  lemma {:induction false} EvictMainValid(c: Cache)
    requires Valid(c)
    ensures Valid(EvictMain(c)) && EvictMain(c).mainBytes <= MAIN_BYTES
      && EvictMain(c).probationBytes == c.probationBytes
    decreases Chances(c.chunks, c.main), |c.main|
  {
    hide Valid, MainTurn;
    if c.mainBytes > MAIN_BYTES {
      MainNonEmpty(c);
      MainTurnValid(c);
      MainTurnProgress(c);
      EvictMainValid(MainTurn(c));
    }
  }

  lemma {:induction false} MainNonEmpty(c: Cache)
    requires Valid(c) && c.mainBytes > 0
    ensures c.main != []
  {
  }

  lemma {:induction false} ShrinkTurnValid(c: Cache)
    requires Valid(c) && (c.probation != [] || c.main != [])
    ensures var d := ShrinkTurn(c);
      Valid(d) && d.probationBytes <= c.probationBytes && d.mainBytes <= c.mainBytes
        && |d.probation| + |d.main| < |c.probation| + |c.main|
  {
    hide NoDuplicates, Covers, Without;
    if c.probation != [] {
      var key, rest := c.probation[0], c.probation[1..];
      assert c.probation == [key] + rest;
      HeadSplits(key, rest, c.main);
      CoversDrop(c.chunks, key, c.probation + c.main, rest + c.main);
      DropSums(c.chunks, key, rest);
      DropSums(c.chunks, key, c.main);
    } else {
      var key, rest := c.main[0], c.main[1..];
      assert c.main == [key] + rest;
      RotatedNoDuplicates(key, rest, c.probation);
      CoversDrop(c.chunks, key, c.probation + c.main, c.probation + rest);
      DropSums(c.chunks, key, rest);
      DropSums(c.chunks, key, c.probation);
    }
  }

  lemma {:induction false} ShrinkValid(c: Cache, target: nat)
    requires Valid(c)
    ensures var d := ShrinkTo(c, target);
      Valid(d) && d.bytes <= target && d.probationBytes <= c.probationBytes && d.mainBytes <= c.mainBytes
    decreases |c.probation| + |c.main|
  {
    hide Valid, ShrinkTurn;
    if c.bytes > target {
      assert c.probation != [] || c.main != [] by { BytesNonEmpty(c); }
      ShrinkTurnValid(c);
      ShrinkValid(ShrinkTurn(c), target);
    }
  }

  lemma {:induction false} BytesNonEmpty(c: Cache)
    requires Valid(c) && c.bytes > 0
    ensures c.probation != [] || c.main != []
  {
  }

  lemma {:induction false} AddedValid(c: Cache, key: Key, content: bytes)
    requires Valid(c) && key !in c.chunks
    ensures Valid(Added(c, key, content))
  {
    hide NoDuplicates, Covers;
    var d := Added(c, key, content);
    CoversAdded(c.chunks, c.probation, c.main, key, d.chunks[key]);
    SumSame(c.chunks, d.chunks, c.probation);
    SumSame(c.chunks, d.chunks, c.main);
    SumConcat(d.chunks, c.probation, [key]);
    SumOne(d.chunks, key);
    InsertNoDuplicates(c.probation, c.main, key);
  }

  lemma {:induction false} CoversAdded(chunks: map<Key, Entry>, a: seq<Key>, b: seq<Key>, key: Key, e: Entry)
    requires Covers(chunks, a + b) && key !in chunks
    ensures key !in a + b && (forall k :: k in a || k in b ==> k != key)
    ensures Covers(chunks[key := e], a + [key] + b)
  {
    assert key !in a + b;
    forall k | k in a || k in b ensures k != key {
      assert k in a + b;
    }
  }

  lemma {:induction false} InsertNoDuplicates(a: seq<Key>, b: seq<Key>, key: Key)
    requires NoDuplicates(a + b) && key !in a + b
    ensures NoDuplicates(a + [key] + b)
  {
    var all := a + [key] + b;
    forall i, j | 0 <= i < j < |all| ensures all[i] != all[j] {
      if i != |a| {
        assert all[i] == (a + b)[if i < |a| then i else i - 1];
      }
      if j != |a| {
        assert all[j] == (a + b)[if j < |a| then j else j - 1];
      }
    }
  }

  /** Insertion keeps the invariant and ends with both queues within their limits. */
  lemma {:induction false} InsertValid(c: Cache, key: Key, content: bytes, admitted: bool, pressure: bool)
    requires Valid(c)
    ensures var d := TryInsert(c, key, content, admitted, pressure);
      && Valid(d)
      && (key !in c.chunks && admitted ==> d.probationBytes <= PROBATION_BYTES && d.mainBytes <= MAIN_BYTES)
      && (key !in c.chunks && admitted && pressure ==> d.bytes <= PRESSURE_TARGET_BYTES)
  {
    hide Valid, EvictProbation, EvictMain, ShrinkTo, Added;
    if key !in c.chunks && admitted {
      var d := Added(c, key, content);
      AddedValid(c, key, content);
      EvictProbationValid(d);
      EvictMainValid(EvictProbation(d));
      if pressure {
        ShrinkValid(Rebalance(d), PRESSURE_TARGET_BYTES);
      }
    }
  }

  lemma {:induction false} RetainFacts(keys: seq<Key>, id: nat)
    ensures forall k :: k in Retain(keys, id) <==> k in keys && k.0 != id
    ensures NoDuplicates(keys) ==> NoDuplicates(Retain(keys, id))
  {
    if keys != [] {
      RetainFacts(keys[1..], id);
      assert keys == [keys[0]] + keys[1..];
      if NoDuplicates(keys) {
        assert NoDuplicates(keys[1..]);
        assert keys[0] !in keys[1..] by {
          forall i | 0 <= i < |keys[1..]| ensures keys[1..][i] != keys[0] {
            assert keys[1..][i] == keys[i + 1];
          }
        }
      }
    }
  }

  lemma {:induction false} RetainConcat(a: seq<Key>, b: seq<Key>, id: nat)
    ensures Retain(a + b, id) == Retain(a, id) + Retain(b, id)
  {
    if a == [] {
      assert a + b == b;
    } else {
      assert (a + b)[1..] == a[1..] + b;
      RetainConcat(a[1..], b, id);
    }
  }

  lemma {:induction false} RemoveValid(c: Cache, id: nat)
    requires Valid(c)
    ensures Valid(RemoveFile(c, id))
  {
    RetainConcat(c.probation, c.main, id);
    RetainFacts(c.probation + c.main, id);
  }

  lemma {:induction false} HitValid(c: Cache, key: Key)
    requires Valid(c)
    ensures Valid(Get(c, key).1)
  {
    if key in c.chunks {
      SumSame(c.chunks, Get(c, key).1.chunks, c.probation);
      SumSame(c.chunks, Get(c, key).1.chunks, c.main);
    }
  }

  predicate Within(c: Cache) {
    c.probationBytes <= PROBATION_BYTES && c.mainBytes <= MAIN_BYTES
  }

  lemma {:induction false} RetainSum(chunks: map<Key, Entry>, chunks': map<Key, Entry>, keys: seq<Key>, id: nat)
    requires forall k :: k in chunks' ==> k in chunks && chunks'[k] == chunks[k]
    ensures Sum(chunks', Retain(keys, id)) <= Sum(chunks, keys)
  {
    if keys != [] {
      RetainSum(chunks, chunks', keys[1..], id);
      if keys[0].0 != id {
        assert Retain(keys, id)[1..] == Retain(keys[1..], id);
      } else {
        assert Retain(keys, id) == Retain(keys[1..], id);
      }
    }
  }

  lemma {:induction false} RemoveWithin(c: Cache, id: nat)
    requires Valid(c) && Within(c)
    ensures Valid(RemoveFile(c, id)) && Within(RemoveFile(c, id))
  {
    hide Valid, Sum;
    RemoveValid(c, id);
    var d := RemoveFile(c, id);
    RetainSum(c.chunks, d.chunks, c.probation, id);
    RetainSum(c.chunks, d.chunks, c.main, id);
    CountersAre(c);
  }

  /** From the empty cache, after any run: the invariant holds and both queues are within their limits. */
  lemma {:induction false} RunWithin(c: Cache, ops: seq<Op>)
    requires Valid(c) && Within(c)
    ensures Valid(Run(c, ops)) && Within(Run(c, ops))
    decreases |ops|
  {
    hide Valid, TryInsert, Sum;
    if ops != [] {
      match ops[0] {
        case Hit(key) => HitValid(c, key);
        case Insert(key, content, admitted, pressure) =>
          InsertValid(c, key, content, admitted, pressure);
          if key in c.chunks || !admitted {
            NoInsertion(c, key, content, admitted, pressure);
          }
        case Remove(id) => RemoveWithin(c, id);
      }
      RunWithin(Apply(c, ops[0]), ops[1..]);
    }
  }

  lemma {:induction false} NoInsertion(c: Cache, key: Key, content: bytes, admitted: bool, pressure: bool)
    requires key in c.chunks || !admitted
    ensures TryInsert(c, key, content, admitted, pressure) == c
  {
  }

  lemma {:induction false} CountersAre(c: Cache)
    requires Valid(c)
    ensures c.probationBytes == Sum(c.chunks, c.probation) && c.mainBytes == Sum(c.chunks, c.main)
  {
  }

  lemma {:induction false} EmptyWithin(c: Cache)
    requires c == EMPTY
    ensures Valid(c) && Within(c)
  {
    hide Sum;
    var none: seq<Key> := [];
    assert c.probation == none && c.main == none && c.probation + c.main == none;
    assert Covers(c.chunks, none);
    SumNone(c.chunks);
  }

  lemma {:induction false} SumNone(chunks: map<Key, Entry>)
    ensures Sum(chunks, []) == 0
  {
  }

  // ----- Scans -----

  /** No chunk on probation was hit since it was inserted. */
  predicate ProbationCold(c: Cache) {
    forall k :: k in c.probation && k in c.chunks ==> !c.chunks[k].referenced
  }

  /** The main queue and the chunks in it are the same. */
  predicate MainUntouched(c: Cache, d: Cache) {
    && d.main == c.main && d.mainBytes == c.mainBytes
    && forall k :: k in c.main ==>
      && (k in d.chunks <==> k in c.chunks)
      && (k in c.chunks && k in d.chunks ==> d.chunks[k] == c.chunks[k])
  }

  lemma {:induction false} UntouchedTrans(c: Cache, d: Cache, e: Cache)
    requires MainUntouched(c, d) && MainUntouched(d, e)
    ensures MainUntouched(c, e)
  {
  }

  lemma {:induction false} ColdTurn(c: Cache)
    requires Valid(c) && ProbationCold(c) && c.probation != []
    ensures MainUntouched(c, ProbationTurn(c)) && ProbationCold(ProbationTurn(c))
  {
    hide Covers;
    var key, rest := c.probation[0], c.probation[1..];
    assert c.probation == [key] + rest;
    HeadSplits(key, rest, c.main);
    CoveredHead(c.chunks, c.probation + c.main, key);
  }

  lemma {:induction false} ColdEviction(c: Cache)
    requires Valid(c) && ProbationCold(c)
    ensures MainUntouched(c, EvictProbation(c)) && ProbationCold(EvictProbation(c))
    decreases |c.probation|
  {
    hide Valid, ProbationCold, MainUntouched, ProbationTurn;
    if c.probationBytes > PROBATION_BYTES && c.probation != [] {
      ColdTurn(c);
      ProbationTurnValid(c);
      ProbationTurnShrinks(c);
      ColdEviction(ProbationTurn(c));
      UntouchedTrans(c, ProbationTurn(c), EvictProbation(c));
    } else {
      UntouchedSelf(c);
    }
  }

  lemma {:induction false} UntouchedSelf(c: Cache)
    ensures MainUntouched(c, c)
  {
  }

  lemma {:induction false} ColdAdd(c: Cache, key: Key, content: bytes)
    requires Valid(c) && ProbationCold(c) && key !in c.chunks
    ensures MainUntouched(c, Added(c, key, content)) && ProbationCold(Added(c, key, content))
  {
    hide Covers;
    CoversAdded(c.chunks, c.probation, c.main, key, Entry(content, false));
  }

  /** Scan resistance: insertions alone, however many, never disturb the main queue of a cache whose
      probationers were not hit. */
  lemma {:induction false} ScanKeepsMain(c: Cache, ops: seq<Op>)
    requires Valid(c) && ProbationCold(c) && c.mainBytes <= MAIN_BYTES && Insertions(ops)
    ensures MainUntouched(c, Run(c, ops))
    decreases |ops|
  {
    hide Valid, ProbationCold, MainUntouched, EvictProbation, Added;
    if ops == [] {
      UntouchedSelf(c);
    } else {
      var op := ops[0];
      var d := Apply(c, op);
      if op.key in c.chunks || !op.admitted {
        UntouchedSelf(c);
      } else {
        var e := Added(c, op.key, op.content);
        ColdAdd(c, op.key, op.content);
        AddedValid(c, op.key, op.content);
        ColdEviction(e);
        UntouchedTrans(c, e, EvictProbation(e));
        assert EvictProbation(e).mainBytes == c.mainBytes by { UntouchedBytes(c, EvictProbation(e)); }
        assert d == EvictProbation(e);
        EvictProbationValid(e);
      }
      ScanKeepsMain(d, ops[1..]);
      UntouchedBytes(c, d);
      UntouchedTrans(c, d, Run(c, ops));
    }
  }

  lemma {:induction false} UntouchedBytes(c: Cache, d: Cache)
    requires MainUntouched(c, d)
    ensures d.mainBytes == c.mainBytes
  {
  }

  /** The chunk at place `i` of the probation queue was hit since it was inserted. */
  predicate Hot(c: Cache, i: nat)
    requires i < |c.probation|
  {
    c.probation[i] in c.chunks && c.chunks[c.probation[i]].referenced
  }

  /** The queue from place `i` on is over the limit, so the chunk there has to go. */
  predicate Leaves(c: Cache, i: nat)
    requires i < |c.probation|
  {
    Sum(c.chunks, c.probation[i..]) > PROBATION_BYTES
  }

  ghost predicate HotLeaves(c: Cache) {
    exists i: nat :: i < |c.probation| && Leaves(c, i) && Hot(c, i)
  }

  lemma {:induction false} SuffixSum(chunks: map<Key, Entry>, keys: seq<Key>, i: nat)
    requires i <= |keys|
    ensures Sum(chunks, keys[i..]) <= Sum(chunks, keys)
  {
    SumConcat(chunks, keys[..i], keys[i..]);
    assert keys == keys[..i] + keys[i..];
  }

  /** Taking the head off changes neither who leaves nor who was hit among the rest. */
  lemma {:induction false} TurnShifts(c: Cache, i: nat)
    requires Valid(c) && i + 1 < |c.probation|
    ensures var d := ProbationTurn(c);
      i < |d.probation| && Leaves(d, i) == Leaves(c, i + 1) && Hot(d, i) == Hot(c, i + 1)
  {
    hide Covers, Without, Sum;
    var key, rest := c.probation[0], c.probation[1..];
    assert c.probation == [key] + rest;
    HeadSplits(key, rest, c.main);
    var d := ProbationTurn(c);
    assert rest[i..] == c.probation[i + 1..] && rest[i] == c.probation[i + 1];
    assert rest[i] in rest;
    forall k | k in rest[i..] ensures SizeOf(c.chunks, k) == SizeOf(d.chunks, k) {
      assert k in rest;
    }
    SumSame(c.chunks, d.chunks, rest[i..]);
  }

  lemma {:induction false} HeadLeaves(c: Cache)
    requires Valid(c) && c.probation != []
    ensures Leaves(c, 0) <==> c.probationBytes > PROBATION_BYTES
  {
    assert c.probation[0..] == c.probation;
  }

  /** The probation loop promotes something exactly when a chunk that has to leave was hit. */
  lemma {:induction false} PromotionExact(c: Cache)
    requires Valid(c)
    ensures c.main <= EvictProbation(c).main
    ensures EvictProbation(c).main == c.main <==> !HotLeaves(c)
    decreases |c.probation|
  {
    hide Valid, Leaves, Hot, ProbationTurn;
    if c.probation != [] {
      HeadLeaves(c);
      if c.probationBytes > PROBATION_BYTES {
        var d := ProbationTurn(c);
        ProbationTurnValid(c);
        ProbationTurnShrinks(c);
        PromotionExact(d);
        TurnMain(c);
        HotShifts(c);
      } else {
        forall i: nat | i < |c.probation| ensures !Leaves(c, i) {
          NoneLeaves(c, i);
        }
      }
    }
  }

  lemma {:induction false} NoneLeaves(c: Cache, i: nat)
    requires Valid(c) && c.probationBytes <= PROBATION_BYTES && i < |c.probation|
    ensures !Leaves(c, i)
  {
    SuffixSum(c.chunks, c.probation, i);
  }

  lemma {:induction false} TurnMain(c: Cache)
    requires c.probation != []
    ensures ProbationTurn(c).main == if Hot(c, 0) then c.main + [c.probation[0]] else c.main
  {
  }

  lemma {:induction false} HotShifts(c: Cache)
    requires Valid(c) && c.probation != [] && c.probationBytes > PROBATION_BYTES
    ensures HotLeaves(c) <==> Hot(c, 0) || HotLeaves(ProbationTurn(c))
  {
    hide Valid, Leaves, Hot, ProbationTurn;
    var d := ProbationTurn(c);
    HeadLeaves(c);
    ProbationTurnShrinks(c);
    if HotLeaves(c) && !Hot(c, 0) {
      var i: nat :| i < |c.probation| && Leaves(c, i) && Hot(c, i);
      TurnShifts(c, i - 1);
    }
    if HotLeaves(d) {
      var i: nat :| i < |d.probation| && Leaves(d, i) && Hot(d, i);
      TurnShifts(c, i);
    }
  }

  // ----- What one insertion does to the main queue -----

  /** The probation loop touches no chunk of the main queue. */
  lemma {:induction false} MainEntriesKept(c: Cache)
    requires Valid(c)
    ensures var e := EvictProbation(c); forall k :: k in c.main ==>
      && k in c.chunks
      && k in e.chunks
      && e.chunks[k] == c.chunks[k]
    decreases |c.probation|
  {
    hide Valid, ProbationTurn;
    MainCovered(c);
    if c.probationBytes > PROBATION_BYTES && c.probation != [] {
      ProbationTurnValid(c);
      ProbationTurnShrinks(c);
      TurnKeepsMain(c);
      MainEntriesKept(ProbationTurn(c));
    }
  }

  lemma {:induction false} MainCovered(c: Cache)
    requires Valid(c)
    ensures forall k :: k in c.main ==> k in c.chunks
  {
    forall k | k in c.main ensures k in c.chunks {
      assert k in c.probation + c.main;
    }
  }

  lemma {:induction false} TurnKeepsMain(c: Cache)
    requires Valid(c) && c.probation != []
    ensures var d := ProbationTurn(c);
      forall k :: k in c.main ==>
        && k in d.main
        && (k in c.chunks <==> k in d.chunks)
        && (k in c.chunks ==> d.chunks[k] == c.chunks[k])
  {
    hide Covers, Without, Sum;
    var key, rest := c.probation[0], c.probation[1..];
    assert c.probation == [key] + rest;
    HeadSplits(key, rest, c.main);
  }

  /** The bytes of the chunks that were hit. */
  function HotSum(chunks: map<Key, Entry>, keys: seq<Key>): nat {
    if keys == [] then 0
    else
      var own := if keys[0] in chunks && chunks[keys[0]].referenced then SizeOf(chunks, keys[0]) else 0;
      own + HotSum(chunks, keys[1..])
  }

  lemma {:induction false} HotSumBelow(chunks: map<Key, Entry>, keys: seq<Key>)
    ensures HotSum(chunks, keys) <= Sum(chunks, keys)
  {
    if keys != [] {
      HotSumBelow(chunks, keys[1..]);
    }
  }

  lemma {:induction false} HotSumSame(chunks: map<Key, Entry>, chunks': map<Key, Entry>, keys: seq<Key>)
    requires forall k :: k in keys ==> (k in chunks <==> k in chunks') && (k in chunks ==> chunks[k] == chunks'[k])
    ensures HotSum(chunks, keys) == HotSum(chunks', keys)
  {
    if keys != [] {
      assert keys[0] in keys;
      assert forall k :: k in keys[1..] ==> k in keys;
      HotSumSame(chunks, chunks', keys[1..]);
    }
  }

  lemma {:induction false} HotSumCold(chunks: map<Key, Entry>, keys: seq<Key>, key: Key)
    requires key in chunks && !chunks[key].referenced
    ensures HotSum(chunks, keys + [key]) == HotSum(chunks, keys)
  {
    var one: seq<Key> := [key];
    if keys == [] {
      assert keys + one == one && one[1..] == [];
    } else {
      assert (keys + one)[1..] == keys[1..] + one;
      HotSumCold(chunks, keys[1..], key);
    }
  }

  /** No more is promoted than was hit. */
  lemma {:induction false} PromotedBytes(c: Cache)
    requires Valid(c)
    ensures EvictProbation(c).mainBytes <= c.mainBytes + HotSum(c.chunks, c.probation)
    decreases |c.probation|
  {
    hide Valid, ProbationTurn, HotSum;
    if c.probationBytes > PROBATION_BYTES && c.probation != [] {
      ProbationTurnValid(c);
      ProbationTurnShrinks(c);
      PromotedBytes(ProbationTurn(c));
      TurnBytes(c);
    }
  }

  lemma {:induction false} TurnBytes(c: Cache)
    requires Valid(c) && c.probation != []
    ensures var d := ProbationTurn(c);
      d.mainBytes + HotSum(d.chunks, d.probation) <= c.mainBytes + HotSum(c.chunks, c.probation)
  {
    hide Covers, Without, Sum;
    var key, rest := c.probation[0], c.probation[1..];
    assert c.probation == [key] + rest;
    HeadSplits(key, rest, c.main);
    HotSumSame(c.chunks, ProbationTurn(c).chunks, rest);
  }

  /** The clock adds no chunk and gives no second chance back. */
  lemma {:induction false} ClockOnlyTakes(c: Cache, k: Key)
    ensures var d := EvictMain(c); k in d.chunks ==>
      && k in c.chunks
      && (d.chunks[k].referenced ==> c.chunks[k].referenced)
    decreases Chances(c.chunks, c.main), |c.main|
  {
    hide Chances;
    if c.mainBytes > MAIN_BYTES && c.main != [] {
      MainTurnProgress(c);
      ClockOnlyTakes(MainTurn(c), k);
    }
  }

  /** Once the clock takes a turn, the head of the main queue is not what it was. */
  lemma {:induction false} ClockChangesHead(c: Cache)
    requires c.mainBytes > MAIN_BYTES && c.main != [] && c.main[0] in c.chunks
    ensures var k := c.main[0]; k in EvictMain(c).chunks ==> EvictMain(c).chunks[k] != c.chunks[k]
  {
    hide Chances;
    MainTurnProgress(c);
    ClockOnlyTakes(MainTurn(c), c.main[0]);
  }

  /** An insertion without pressure leaves the main queue as it is exactly when no chunk that has to leave
      probation was hit. */
  lemma {:induction false} InsertionExact(c: Cache, key: Key, content: bytes)
    requires Valid(c) && Within(c) && key !in c.chunks
    ensures MainUntouched(c, TryInsert(c, key, content, true, false)) <==> !HotLeaves(Added(c, key, content))
  {
    hide Valid, EvictProbation, EvictMain, HotLeaves, HotSum;
    var a := Added(c, key, content);
    AddedValid(c, key, content);
    var e := EvictProbation(a);
    PromotionExact(a);
    MainEntriesKept(a);
    EvictProbationValid(a);
    MainAdded(c, key, content);
    if !HotLeaves(a) {
      CountersAre(e);
      MainSum(c, e);
      ClockIdle(e);
    } else if e.mainBytes <= MAIN_BYTES {
      ClockIdle(e);
    } else {
      MainNotEmpty(c, key, content);
      assert e.main[0] == c.main[0];
      assert c.main[0] in c.main;
      ClockChangesHead(e);
    }
  }

  lemma {:induction false} ClockIdle(c: Cache)
    requires c.mainBytes <= MAIN_BYTES
    ensures EvictMain(c) == c
  {
  }

  lemma {:induction false} MainAdded(c: Cache, key: Key, content: bytes)
    requires Valid(c) && key !in c.chunks
    ensures var a := Added(c, key, content); a.main == c.main && forall k :: k in c.main ==>
      && k in c.chunks
      && k in a.chunks
      && a.chunks[k] == c.chunks[k]
  {
    MainCovered(c);
  }

  lemma {:induction false} MainSum(c: Cache, e: Cache)
    requires Valid(c) && Valid(e) && e.main == c.main
    requires forall k :: k in c.main ==> k in c.chunks && k in e.chunks && e.chunks[k] == c.chunks[k]
    ensures e.mainBytes == c.mainBytes
  {
    hide NoDuplicates, Covers;
    SumSame(c.chunks, e.chunks, c.main);
  }

  /** An empty main queue cannot overflow: what was hit fits it. */
  lemma {:induction false} MainNotEmpty(c: Cache, key: Key, content: bytes)
    requires Valid(c) && Within(c) && key !in c.chunks && EvictProbation(Added(c, key, content)).mainBytes > MAIN_BYTES
    ensures c.main != []
  {
    hide NoDuplicates, EvictProbation, HotSum;
    var a := Added(c, key, content);
    AddedValid(c, key, content);
    PromotedBytes(a);
    HotSumCold(a.chunks, c.probation, key);
    CoversAdded(c.chunks, c.probation, c.main, key, Entry(content, false));
    HotSumSame(c.chunks, a.chunks, c.probation);
    HotSumBelow(c.chunks, c.probation);
  }

  // ----- Scans, exactly -----

  predicate Insertions(ops: seq<Op>) {
    forall i :: 0 <= i < |ops| ==> ops[i].Insert? && !ops[i].pressure
  }

  /** What reading files can do: insertions of chunks no longer than a file's chunks may be. */
  predicate Scan(ops: seq<Op>) {
    Insertions(ops) && forall i :: 0 <= i < |ops| ==> |ops[i].content| <= CHUNK_BYTES
  }

  lemma {:induction false} FreshKey(keys: set<Key>) returns (n: nat)
    ensures forall k :: k in keys ==> k.0 < n
  {
    if keys == {} {
      n := 0;
    } else {
      var k :| k in keys;
      var m := FreshKey(keys - {k});
      n := if k.0 < m then m else k.0 + 1;
      forall x | x in keys ensures x.0 < n {
        assert x == k || x in keys - {k};
      }
    }
  }

  /** A hit chunk stands at place `i` of probation, with at least `n` bytes from there on. */
  predicate HotFrom(c: Cache, i: nat, n: nat) {
    i < |c.probation| && Hot(c, i) && Sum(c.chunks, c.probation[i..]) >= n
  }

  lemma {:induction false} AddedBehind(c: Cache, key: Key, content: bytes, i: nat, n: nat)
    requires Valid(c) && key !in c.chunks && HotFrom(c, i, n)
    ensures HotFrom(Added(c, key, content), i, n + |content|)
  {
    hide NoDuplicates;
    var a := Added(c, key, content);
    CoversAdded(c.chunks, c.probation, c.main, key, Entry(content, false));
    assert a.probation[i..] == c.probation[i..] + [key];
    SumConcat(a.chunks, c.probation[i..], [key]);
    SumOne(a.chunks, key);
    assert a.probation[i] == c.probation[i] && c.probation[i] in c.probation;
    forall k | k in c.probation[i..] ensures SizeOf(c.chunks, k) == SizeOf(a.chunks, k) {
      assert k in c.probation;
    }
    SumSame(c.chunks, a.chunks, c.probation[i..]);
  }

  /** If no hit chunk has to leave, one that was hit stays with everything behind it. */
  lemma {:induction false} HotStays(c: Cache, i: nat, n: nat) returns (j: nat)
    requires Valid(c) && HotFrom(c, i, n) && !HotLeaves(c)
    ensures HotFrom(EvictProbation(c), j, n)
    decreases |c.probation|
  {
    hide Valid, Leaves, Hot, ProbationTurn, Sum;
    if c.probationBytes > PROBATION_BYTES && c.probation != [] {
      HeadLeaves(c);
      HotShifts(c);
      ProbationTurnValid(c);
      ProbationTurnShrinks(c);
      TurnKeepsBehind(c, i - 1, n);
      j := HotStays(ProbationTurn(c), i - 1, n);
    } else {
      j := i;
    }
  }

  lemma {:induction false} TurnKeepsBehind(c: Cache, i: nat, n: nat)
    requires Valid(c) && HotFrom(c, i + 1, n)
    ensures HotFrom(ProbationTurn(c), i, n)
  {
    hide Covers, Without, Sum;
    TurnShifts(c, i);
    var key, rest := c.probation[0], c.probation[1..];
    assert c.probation == [key] + rest;
    HeadSplits(key, rest, c.main);
    var d := ProbationTurn(c);
    assert rest[i..] == c.probation[i + 1..];
    forall k | k in rest[i..] ensures SizeOf(c.chunks, k) == SizeOf(d.chunks, k) {
      assert k in rest;
    }
    SumSame(c.chunks, d.chunks, rest[i..]);
  }

  /** An insertion that pushes no hit chunk out leaves the hit chunk on probation with more behind it. */
  lemma {:induction false} QuietInsertion(c: Cache, key: Key, content: bytes, i: nat, n: nat) returns (j: nat)
    requires Valid(c) && Within(c) && key !in c.chunks && HotFrom(c, i, n) && !HotLeaves(Added(c, key, content))
    ensures var d := TryInsert(c, key, content, true, false);
      Valid(d) && Within(d) && MainUntouched(c, d) && HotFrom(d, j, n + |content|)
  {
    hide Valid, EvictProbation, EvictMain, HotLeaves, MainUntouched, HotFrom;
    var a := Added(c, key, content);
    AddedValid(c, key, content);
    AddedBehind(c, key, content, i, n);
    j := HotStays(a, i, n + |content|);
    InsertionExact(c, key, content);
    InsertValid(c, key, content, true, false);
    EvictProbationValid(a);
    PromotionExact(a);
    MainEntriesKept(a);
    MainAdded(c, key, content);
    MainSum(c, EvictProbation(a));
    ClockIdle(EvictProbation(a));
  }

  /** With enough behind it, the hit chunk has to leave. */
  lemma {:induction false} HotMustLeave(c: Cache, i: nat, n: nat)
    requires HotFrom(c, i, n) && n > PROBATION_BYTES
    ensures HotLeaves(c)
  {
  }

  lemma {:induction false} RunSnoc(c: Cache, ops: seq<Op>, op: Op)
    ensures Run(c, ops + [op]) == Apply(Run(c, ops), op)
    decreases |ops|
  {
    hide Apply;
    if ops == [] {
      assert ops + [op] == [op];
      RunOne(c, op);
    } else {
      assert (ops + [op])[1..] == ops[1..] + [op];
      RunSnoc(Apply(c, ops[0]), ops[1..], op);
    }
  }

  /** From a state with a hit chunk on probation, some scan reaches the main queue: at most three full chunks are
      needed. */
  lemma {:induction false} ScanReaches(origin: Cache, ops: seq<Op>, c: Cache, i: nat, n: nat) returns (all: seq<Op>)
    requires Scan(ops) && c == Run(origin, ops) && MainUntouched(origin, c)
    requires Valid(c) && Within(c) && HotFrom(c, i, n) && n <= PROBATION_BYTES
    ensures Scan(all) && !MainUntouched(origin, Run(origin, all))
    decreases PROBATION_BYTES - n
  {
    hide Valid, Run, HotFrom, HotLeaves, MainUntouched;
    var unused := FreshKey(c.chunks.Keys);
    var key: Key := (unused, 0);
    var chunk := Zeros(CHUNK_BYTES);
    var op := Insert(key, chunk, true, false);
    var d := TryInsert(c, key, chunk, true, false);
    RunSnoc(origin, ops, op);
    AddedBehind(c, key, chunk, i, n);
    if HotLeaves(Added(c, key, chunk)) {
      InsertionExact(c, key, chunk);
      UntouchedBoth(origin, c, d);
      all := ops + [op];
    } else {
      if n + CHUNK_BYTES > PROBATION_BYTES {
        HotMustLeave(Added(c, key, chunk), i, n + CHUNK_BYTES);
      }
      var j := QuietInsertion(c, key, chunk, i, n);
      UntouchedTrans(origin, c, d);
      all := ScanReaches(origin, ops + [op], d, j, n + CHUNK_BYTES);
    }
  }

  lemma {:induction false} UntouchedBoth(c: Cache, d: Cache, e: Cache)
    requires MainUntouched(c, d)
    ensures MainUntouched(c, e) ==> MainUntouched(d, e)
  {
  }

  /** Scan resistance is exact: no sequence of insertions that reading can cause, however long, disturbs the main
      queue if and only if no chunk on probation was hit before it. */
  lemma {:induction false} ScanExact(c: Cache)
    requires Valid(c) && Within(c)
    ensures (forall ops: seq<Op> :: Scan(ops) ==> MainUntouched(c, Run(c, ops))) <==> ProbationCold(c)
  {
    hide Valid, MainUntouched, Sum;
    if ProbationCold(c) {
      forall ops: seq<Op> | Scan(ops) ensures MainUntouched(c, Run(c, ops)) {
        ScanKeepsMain(c, ops);
      }
    } else {
      var k :| k in c.probation && k in c.chunks && c.chunks[k].referenced;
      var i :| 0 <= i < |c.probation| && c.probation[i] == k;
      UntouchedSelf(c);
      assert Run(c, []) == c;
      var ops := ScanReaches(c, [], c, i, 0);
    }
  }

  lemma {:induction false} RunOne(c: Cache, op: Op)
    ensures Run(c, [op]) == Apply(c, op)
  {
    hide Apply;
    var ops := [op];
    assert ops[1..] == [];
    assert Run(c, ops) == Run(Apply(c, ops[0]), ops[1..]);
  }

  /** A hit before the scan is enough: a chunk that was hit goes to the main queue when two more, one full and
      one of a byte, come after it. */
  lemma {:induction false} HitThenScanPromotes(first: Key, second: Key, third: Key)
    requires first != second && first != third && second != third
    ensures var full := Zeros(CHUNK_BYTES);
      Run(EMPTY, [Insert(first, full, true, false), Hit(first), Insert(second, full, true, false),
        Insert(third, [0], true, false)]).main == [first]
  {
    hide Run;
    var full := Zeros(CHUNK_BYTES);
    var a, b, c, d :=
      Insert(first, full, true, false), Hit(first), Insert(second, full, true, false), Insert(third, [0], true, false);
    var c1 := Added(EMPTY, first, full);
    assert c1.probation == [first] && Apply(EMPTY, a) == c1;
    var c2 := Get(c1, first).1;
    var c3 := Added(c2, second, full);
    assert c3.probation == [first, second] && c3.probationBytes == PROBATION_BYTES;
    assert Apply(c2, c) == c3;
    var c4 := Added(c3, third, [0]);
    assert c4.probation == [first, second, third] && c4.probationBytes == PROBATION_BYTES + 1;
    var c5 := ProbationTurn(c4);
    assert c5.main == [first] && c5.probationBytes == CHUNK_BYTES + 1 && c5.mainBytes == CHUNK_BYTES;
    assert EvictProbation(c4) == c5;
    ClockIdle(c5);
    assert Apply(c3, d) == c5;
    RunOne(EMPTY, a);
    RunSnoc(EMPTY, [a], b);
    RunSnoc(EMPTY, [a, b], c);
    RunSnoc(EMPTY, [a, b, c], d);
    assert [a] + [b] == [a, b] && [a, b] + [c] == [a, b, c] && [a, b, c] + [d] == [a, b, c, d];
  }

  // ----- Cached reads agree with decryption -----

  /** Every cached chunk is the decryption of its frame. */
  ghost predicate Faithful(c: Cache, source: Key -> bytes) {
    forall k :: k in c.chunks ==> c.chunks[k].content == source(k)
  }

  lemma {:induction false} RebalanceFaithful(c: Cache, source: Key -> bytes)
    requires Faithful(c, source)
    ensures Faithful(EvictProbation(c), source)
    decreases |c.probation|
  {
    if c.probationBytes > PROBATION_BYTES && c.probation != [] {
      RebalanceFaithful(ProbationTurn(c), source);
    }
  }

  lemma {:induction false} EvictMainFaithful(c: Cache, source: Key -> bytes)
    requires Faithful(c, source)
    ensures Faithful(EvictMain(c), source)
    decreases Chances(c.chunks, c.main), |c.main|
  {
    if c.mainBytes > MAIN_BYTES && c.main != [] {
      MainTurnProgress(c);
      assert Faithful(MainTurn(c), source);
      EvictMainFaithful(MainTurn(c), source);
    }
  }

  lemma {:induction false} ShrinkFaithful(c: Cache, target: nat, source: Key -> bytes)
    requires Faithful(c, source)
    ensures Faithful(ShrinkTo(c, target), source)
    decreases |c.probation| + |c.main|
  {
    if c.bytes > target && (c.probation != [] || c.main != []) {
      ShrinkFaithful(ShrinkTurn(c), target, source);
    }
  }

  /** In every run whose insertions carry decrypted chunks, a hit returns the decrypted chunk. */
  lemma {:induction false} HitsAgree(c: Cache, ops: seq<Op>, source: Key -> bytes, key: Key)
    requires Faithful(c, source)
    requires forall i :: 0 <= i < |ops| && ops[i].Insert? ==> ops[i].content == source(ops[i].key)
    ensures Faithful(Run(c, ops), source)
    ensures Get(Run(c, ops), key).0.Some? ==> Get(Run(c, ops), key).0.value == source(key)
    decreases |ops|
  {
    hide EvictProbation, EvictMain, ShrinkTo;
    if ops != [] {
      if ops[0].Insert? {
        var d := Added(c, ops[0].key, ops[0].content);
        RebalanceFaithful(d, source);
        EvictMainFaithful(EvictProbation(d), source);
        ShrinkFaithful(Rebalance(d), PRESSURE_TARGET_BYTES, source);
      }
      HitsAgree(Apply(c, ops[0]), ops[1..], source, key);
    }
  }

  // ----- The cache in place -----

  class PersistentChunkCache {
    var chunks: map<Key, Entry>
    var probation: seq<Key>
    var main: seq<Key>
    var bytes: nat
    var probationBytes: nat
    var mainBytes: nat

    function State(): Cache
      reads this
    {
      Cache(chunks, probation, main, bytes, probationBytes, mainBytes)
    }

    constructor ()
      ensures State() == EMPTY && Valid(State()) && Within(State())
    {
      chunks, probation, main, bytes, probationBytes, mainBytes := map[], [], [], 0, 0, 0;
      new;
      EmptyWithin(State());
    }

    /** A hit returns the cached content and marks the chunk; queues and counters stay. */
    method Lookup(key: Key) returns (r: Option<bytes>)
      requires Valid(State()) && Within(State())
      modifies this`chunks
      ensures Valid(State()) && Within(State()) && (r, State()) == Get(old(State()), key)
      ensures r == if key in old(chunks) then Some(old(chunks)[key].content) else None
      ensures key in old(chunks) ==> chunks[key].referenced
      ensures chunks.Keys == old(chunks).Keys && forall k :: k in chunks ==> chunks[k].content == old(chunks)[k].content
    {
      HitValid(State(), key);
      if key !in chunks {
        return None;
      }
      r := Some(chunks[key].content);
      chunks := chunks[key := chunks[key].(referenced := true)];
    }

    method RebalanceQueues()
      requires Valid(State())
      modifies this
      ensures State() == Rebalance(old(State())) && Valid(State()) && Within(State())
    {
      hide Valid;
      EvictProbationValid(State());
      EvictMainValid(EvictProbation(State()));
      while probationBytes > PROBATION_BYTES && probation != []
        invariant EvictProbation(State()) == EvictProbation(old(State()))
        decreases |probation|
      {
        ghost var before := State();
        var key := probation[0];
        probation := probation[1..];
        if key in chunks {
          var size := |chunks[key].content|;
          probationBytes := SaturatingSub(probationBytes, size);
          if chunks[key].referenced {
            chunks := Unreferenced(chunks, key);
            mainBytes := mainBytes + size;
            main := main + [key];
          } else {
            chunks := chunks - {key};
            bytes := SaturatingSub(bytes, size);
          }
        }
        assert State() == ProbationTurn(before);
      }
      assert State() == EvictProbation(old(State()));
      while mainBytes > MAIN_BYTES && main != []
        invariant EvictMain(State()) == Rebalance(old(State()))
        decreases Chances(chunks, main), |main|
      {
        ghost var before := State();
        MainTurnProgress(before);
        var key := main[0];
        main := main[1..];
        if key in chunks {
          if chunks[key].referenced {
            chunks := Unreferenced(chunks, key);
            main := main + [key];
          } else {
            var size := |chunks[key].content|;
            chunks := chunks - {key};
            mainBytes := SaturatingSub(mainBytes, size);
            bytes := SaturatingSub(bytes, size);
          }
        }
        assert State() == MainTurn(before);
      }
    }

    method Shrink(target: nat)
      requires Valid(State()) && Within(State())
      modifies this
      ensures State() == ShrinkTo(old(State()), target) && Valid(State()) && Within(State()) && bytes <= target
    {
      hide Valid;
      ShrinkValid(State(), target);
      while bytes > target && (probation != [] || main != [])
        invariant ShrinkTo(State(), target) == ShrinkTo(old(State()), target)
        decreases |probation| + |main|
      {
        ghost var before := State();
        if probation != [] {
          var key, size := probation[0], SizeOf(chunks, probation[0]);
          probation := probation[1..];
          chunks := chunks - {key};
          probationBytes := SaturatingSub(probationBytes, size);
          bytes := SaturatingSub(bytes, size);
        } else {
          var key, size := main[0], SizeOf(chunks, main[0]);
          main := main[1..];
          chunks := chunks - {key};
          mainBytes := SaturatingSub(mainBytes, size);
          bytes := SaturatingSub(bytes, size);
        }
        assert State() == ShrinkTurn(before);
      }
    }

    method Store(key: Key, content: Bytes.bytes, admitted: bool, pressure: bool)
      requires Valid(State()) && Within(State())
      modifies this
      ensures State() == TryInsert(old(State()), key, content, admitted, pressure) && Valid(State()) && Within(State())
      ensures key !in old(chunks) && admitted && pressure ==> bytes <= PRESSURE_TARGET_BYTES
    {
      hide Valid;
      if key in chunks || !admitted {
        return;
      }
      bytes := bytes + |content|;
      probationBytes := probationBytes + |content|;
      chunks := chunks[key := Entry(content, false)];
      probation := probation + [key];
      assert State() == Added(old(State()), key, content);
      AddedValid(old(State()), key, content);
      RebalanceQueues();
      if pressure {
        Shrink(PRESSURE_TARGET_BYTES);
      }
    }

    /** Every chunk of the file and nothing else goes; the counters are summed afresh. */
    method Forget(id: nat)
      requires Valid(State()) && Within(State())
      modifies this
      ensures State() == RemoveFile(old(State()), id) && Valid(State()) && Within(State())
      ensures forall k :: k in chunks <==> k in old(chunks) && k.0 != id
      ensures forall k :: k in chunks ==> chunks[k] == old(chunks)[k]
    {
      RemoveWithin(State(), id);
      probation := Retain(probation, id);
      main := Retain(main, id);
      chunks := map k | k in chunks && k.0 != id :: chunks[k];
      probationBytes := Sum(chunks, probation);
      mainBytes := Sum(chunks, main);
      bytes := probationBytes + mainBytes;
    }
  }
}
