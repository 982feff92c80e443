/** Which chunks the second-chance clock of `encryption.rs` takes: those not hit
    since the clock last passed them, in queue order, and only when these are all
    gone the ones that were hit, as few as bring the main queue within its limit. */
module CacheClock {
  import opened Bytes
  import opened ChunkCache

  function Marked(chunks: map<Key, Entry>, keys: seq<Key>, hit: bool): seq<Key> {
    if keys == [] then []
    else
      var rest := Marked(chunks, keys[1..], hit);
      if keys[0] in chunks && chunks[keys[0]].referenced == hit then [keys[0]] + rest else rest
  }

  /** Unhit chunks in queue order, then hit ones in queue order. */
  function TakingOrder(chunks: map<Key, Entry>, keys: seq<Key>): seq<Key> {
    Marked(chunks, keys, false) + Marked(chunks, keys, true)
  }

  lemma {:induction false} MarkedConcat(chunks: map<Key, Entry>, a: seq<Key>, b: seq<Key>, hit: bool)
    ensures Marked(chunks, a + b, hit) == Marked(chunks, a, hit) + Marked(chunks, b, hit)
  {
    if a == [] {
      assert a + b == b;
    } else {
      MarkedConcat(chunks, a[1..], b, hit);
      assert (a + b)[1..] == a[1..] + b;
    }
  }

  lemma {:induction false} MarkedOne(chunks: map<Key, Entry>, key: Key, hit: bool)
    ensures Marked(chunks, [key], hit) == if key in chunks && chunks[key].referenced == hit then [key] else []
  {
    var one: seq<Key> := [key];
    assert one[1..] == [];
  }

  lemma {:induction false} MarkedSame(chunks: map<Key, Entry>, chunks': map<Key, Entry>, keys: seq<Key>, hit: bool)
    requires forall k :: k in keys ==>
      (k in chunks <==> k in chunks') && (k in chunks ==> chunks[k].referenced == chunks'[k].referenced)
    ensures Marked(chunks, keys, hit) == Marked(chunks', keys, hit)
  {
    if keys != [] {
      assert keys[0] in keys;
      assert forall k :: k in keys[1..] ==> k in keys;
      MarkedSame(chunks, chunks', keys[1..], hit);
    }
  }

  lemma {:induction false} MarkedMember(chunks: map<Key, Entry>, keys: seq<Key>, hit: bool, k: Key)
    ensures k in Marked(chunks, keys, hit) <==> k in keys && k in chunks && chunks[k].referenced == hit
  {
    if keys != [] {
      MarkedMember(chunks, keys[1..], hit, k);
      assert keys == [keys[0]] + keys[1..];
    }
  }

  lemma {:induction false} MarkedSums(chunks: map<Key, Entry>, keys: seq<Key>)
    ensures Sum(chunks, Marked(chunks, keys, false)) + Sum(chunks, Marked(chunks, keys, true)) == Sum(chunks, keys)
  {
    if keys != [] {
      var rest := keys[1..];
      MarkedSums(chunks, rest);
      var here: seq<Key> := [keys[0]];
      SumOne(chunks, keys[0]);
      SumConcat(chunks, here, Marked(chunks, rest, false));
      SumConcat(chunks, here, Marked(chunks, rest, true));
    }
  }

  lemma {:induction false} OrderSum(chunks: map<Key, Entry>, keys: seq<Key>)
    ensures Sum(chunks, TakingOrder(chunks, keys)) == Sum(chunks, keys)
  {
    MarkedSums(chunks, keys);
    SumConcat(chunks, Marked(chunks, keys, false), Marked(chunks, keys, true));
  }

  // ----- One turn -----

  /** The head of the queue occurs once and is cached. */
  lemma {:induction false} HeadOnce(c: Cache)
    requires Valid(c) && c.main != []
    ensures c.main[0] in c.chunks && c.main[0] !in c.main[1..] && c.main[0] !in c.probation
  {
    var all := c.probation + c.main;
    assert all[|c.probation|] == c.main[0];
    forall i | 0 < i < |c.main| ensures c.main[i] != c.main[0] {
      assert all[|c.probation| + i] == c.main[i];
    }
    forall i | 0 <= i < |c.probation| ensures c.probation[i] != c.main[0] {
      assert all[i] == c.probation[i];
    }
  }

  lemma {:induction false} HitTurn(c: Cache)
    requires Valid(c) && c.main != [] && c.main[0] in c.chunks && c.chunks[c.main[0]].referenced
    ensures TakingOrder(MainTurn(c).chunks, MainTurn(c).main) == TakingOrder(c.chunks, c.main)
  {
    hide Valid;
    HeadOnce(c);
    var key, rest := c.main[0], c.main[1..];
    var d := MainTurn(c);
    assert c.main == [key] + rest;
    MarkedConcat(c.chunks, [key], rest, false);
    MarkedConcat(c.chunks, [key], rest, true);
    MarkedConcat(d.chunks, rest, [key], false);
    MarkedConcat(d.chunks, rest, [key], true);
    MarkedOne(c.chunks, key, false);
    MarkedOne(c.chunks, key, true);
    MarkedOne(d.chunks, key, false);
    MarkedOne(d.chunks, key, true);
    MarkedSame(c.chunks, d.chunks, rest, false);
    MarkedSame(c.chunks, d.chunks, rest, true);
  }

  lemma {:induction false} UnhitTurn(c: Cache)
    requires Valid(c) && c.main != [] && c.main[0] in c.chunks && !c.chunks[c.main[0]].referenced
    ensures TakingOrder(c.chunks, c.main) == [c.main[0]] + TakingOrder(MainTurn(c).chunks, MainTurn(c).main)
  {
    hide Valid;
    HeadOnce(c);
    var key, rest := c.main[0], c.main[1..];
    var d := MainTurn(c);
    assert c.main == [key] + rest;
    MarkedConcat(c.chunks, [key], rest, false);
    MarkedConcat(c.chunks, [key], rest, true);
    MarkedOne(c.chunks, key, false);
    MarkedOne(c.chunks, key, true);
    MarkedSame(c.chunks, d.chunks, rest, false);
    MarkedSame(c.chunks, d.chunks, rest, true);
  }

  // ----- The clock -----

  /** `n` chunks are taken from the front of this order: the fewest that bring the rest within the limit. */
  predicate Takes(chunks: map<Key, Entry>, order: seq<Key>, n: nat, limit: nat) {
    && n <= |order|
    && Sum(chunks, order[n..]) <= limit
    && (n > 0 ==> Sum(chunks, order[n - 1..]) > limit)
  }

  lemma {:induction false} OrderMember(chunks: map<Key, Entry>, keys: seq<Key>, k: Key)
    ensures k in TakingOrder(chunks, keys) <==> k in keys && k in chunks
  {
    MarkedMember(chunks, keys, false, k);
    MarkedMember(chunks, keys, true, k);
  }

  lemma {:induction false} TakesOneMore(chunks: map<Key, Entry>, key: Key, order: seq<Key>, n: nat, limit: nat)
    requires Takes(chunks - {key}, order, n, limit) && key !in order && Sum(chunks, [key] + order) > limit
    ensures Takes(chunks, [key] + order, n + 1, limit)
  {
    var all := [key] + order;
    assert all[n + 1..] == order[n..];
    assert forall k :: k in order[n..] ==> k in order;
    DropSums(chunks, key, order[n..]);
    if n == 0 {
      assert all[0..] == all;
    } else {
      assert all[n..] == order[n - 1..];
      assert forall k :: k in order[n - 1..] ==> k in order;
      DropSums(chunks, key, order[n - 1..]);
    }
  }

  lemma {:induction false} TakesAsMany(chunks: map<Key, Entry>, key: Key, order: seq<Key>, n: nat)
    requires key in chunks && Takes(Unreferenced(chunks, key), order, n, MAIN_BYTES)
    ensures Takes(chunks, order, n, MAIN_BYTES)
  {
    UnreferencedSums(chunks, key, order[n..]);
    if n > 0 {
      UnreferencedSums(chunks, key, order[n - 1..]);
    }
  }

  /** What remains after `n` chunks of the order were taken, with its content. */
  ghost predicate Left(before: map<Key, Entry>, order: seq<Key>, n: nat, after: map<Key, Entry>)
    requires n <= |order|
  {
    && (forall k :: k in after <==> k in before && k !in order[..n])
    && (forall k :: k in after ==> k in before && after[k].content == before[k].content)
  }

  /** The clock takes the fewest chunks from the front of its order that bring the main queue within its limit, and
      no other chunk. */
  lemma {:induction false} ClockExact(c: Cache) returns (n: nat)
    requires Valid(c)
    ensures Takes(c.chunks, TakingOrder(c.chunks, c.main), n, MAIN_BYTES)
    ensures Left(c.chunks, TakingOrder(c.chunks, c.main), n, EvictMain(c).chunks)
    decreases Chances(c.chunks, c.main), |c.main|
  {
    hide Valid, Marked, Sum, Chances, TakingOrder, MainTurn;
    var order := TakingOrder(c.chunks, c.main);
    OrderSum(c.chunks, c.main);
    CountersAre(c);
    if c.mainBytes > MAIN_BYTES {
      MainNonEmpty(c);
      HeadOnce(c);
      MainTurnValid(c);
      MainTurnProgress(c);
      var key, d := c.main[0], MainTurn(c);
      TurnIs(c);
      n := ClockExact(d);
      if c.chunks[key].referenced {
        HitTurn(c);
        TakesAsMany(c.chunks, key, order, n);
      } else {
        UnhitTurn(c);
        var rest := TakingOrder(d.chunks, d.main);
        OrderMember(d.chunks, d.main, key);
        TakesOneMore(c.chunks, key, rest, n, MAIN_BYTES);
        assert order[..n + 1] == [key] + rest[..n];
        n := n + 1;
      }
    } else {
      n := 0;
      assert order[0..] == order && order[..0] == [];
    }
  }

  lemma {:induction false} TurnIs(c: Cache)
    requires c.main != [] && c.main[0] in c.chunks
    ensures MainTurn(c).chunks ==
      if c.chunks[c.main[0]].referenced then Unreferenced(c.chunks, c.main[0]) else c.chunks - {c.main[0]}
  {
  }

  /** A hit chunk of the main queue outlasts every chunk there that was not hit. */
  lemma {:induction false} HitOutlastsUnhit(c: Cache, hit: Key, unhit: Key)
    requires Valid(c) && hit in c.main && unhit in c.main && hit in c.chunks && unhit in c.chunks
    requires c.chunks[hit].referenced && !c.chunks[unhit].referenced
    ensures unhit in EvictMain(c).chunks ==> hit in EvictMain(c).chunks
  {
    hide Valid, Marked, Sum, EvictMain;
    var n := ClockExact(c);
    var cold, hot := Marked(c.chunks, c.main, false), Marked(c.chunks, c.main, true);
    var order := cold + hot;
    MarkedMember(c.chunks, c.main, false, hit);
    MarkedMember(c.chunks, c.main, false, unhit);
    if hit !in EvictMain(c).chunks {
      var i :| 0 <= i < n && order[i] == hit;
      assert i >= |cold|;
      var j :| 0 <= j < |cold| && cold[j] == unhit;
      assert order[..n][j] == unhit;
    }
  }

  lemma {:induction false} SumTail(chunks: map<Key, Entry>, keys: seq<Key>, i: nat)
    requires i <= |keys|
    ensures Sum(chunks, keys[i..]) <= Sum(chunks, keys)
  {
    assert keys == keys[..i] + keys[i..];
    SumConcat(chunks, keys[..i], keys[i..]);
  }

  /** All hit chunks of the main queue stay exactly when they fit the limit together. */
  lemma {:induction false} HitsStayExact(c: Cache)
    requires Valid(c)
    ensures (forall k :: k in c.main && k in c.chunks && c.chunks[k].referenced ==> k in EvictMain(c).chunks) <==>
      Sum(c.chunks, Marked(c.chunks, c.main, true)) <= MAIN_BYTES
  {
    hide Valid, Marked, Sum, EvictMain;
    var n := ClockExact(c);
    var cold, hot := Marked(c.chunks, c.main, false), Marked(c.chunks, c.main, true);
    var order := cold + hot;
    if n <= |cold| {
      assert order[n..] == cold[n..] + hot;
      SumConcat(c.chunks, cold[n..], hot);
      forall k | k in c.main && k in c.chunks && c.chunks[k].referenced ensures k in EvictMain(c).chunks {
        MarkedMember(c.chunks, c.main, false, k);
        assert order[..n] == cold[..n];
        assert forall x :: x in cold[..n] ==> x in cold;
      }
    } else {
      var m := n - 1 - |cold|;
      assert order[n - 1..] == hot[m..];
      SumTail(c.chunks, hot, m);
      var k := hot[m];
      MarkedMember(c.chunks, c.main, true, k);
      assert order[..n][n - 1] == k;
      assert k in c.main && k in c.chunks && c.chunks[k].referenced && k !in EvictMain(c).chunks;
    }
  }

  // ----- The probation loop -----

  /** What became of a chunk that was in the cache: kept as it was, or, out of probation, dropped or unmarked. */
  predicate Fate(c: Cache, gone: seq<Key>, d: Cache, k: Key)
    requires k in c.chunks
  {
    if k !in gone then k in d.chunks && d.chunks[k] == c.chunks[k]
    else if c.chunks[k].referenced then k in d.chunks && d.chunks[k] == c.chunks[k].(referenced := false)
    else k !in d.chunks
  }

  /** Hit ones went to the back of the main queue, in order and without their mark; the others are gone. */
  ghost predicate Sifted(c: Cache, n: nat, d: Cache)
    requires n <= |c.probation|
  {
    && d.probation == c.probation[n..]
    && d.main == c.main + Marked(c.chunks, c.probation[..n], true)
    && (forall k :: k in d.chunks ==> k in c.chunks)
    && (forall k :: k in c.chunks ==> Fate(c, c.probation[..n], d, k))
  }

  lemma {:induction false} ProbationHead(c: Cache)
    requires Valid(c) && c.probation != []
    ensures c.probation[0] in c.chunks && c.probation[0] !in c.probation[1..]
  {
    var all := c.probation + c.main;
    assert all[0] == c.probation[0];
    forall i | 0 < i < |c.probation| ensures c.probation[i] != c.probation[0] {
      assert all[i] == c.probation[i];
    }
  }

  lemma {:induction false} LeavesOneMore(c: Cache, n: nat)
    requires Valid(c) && c.probation != [] && c.probationBytes > PROBATION_BYTES
    requires Takes(ProbationTurn(c).chunks, c.probation[1..], n, PROBATION_BYTES)
    ensures Takes(c.chunks, c.probation, n + 1, PROBATION_BYTES)
  {
    hide Sum;
    ProbationHead(c);
    var key, rest, d := c.probation[0], c.probation[1..], ProbationTurn(c);
    assert c.probation[n + 1..] == rest[n..];
    assert forall k :: k in rest[n..] ==> k in rest;
    SumSame(c.chunks, d.chunks, rest[n..]);
    if n == 0 {
      assert c.probation[0..] == c.probation;
    } else {
      assert c.probation[n..] == rest[n - 1..];
      assert forall k :: k in rest[n - 1..] ==> k in rest;
      SumSame(c.chunks, d.chunks, rest[n - 1..]);
    }
  }

  lemma {:induction false} FateOneMore(c: Cache, n: nat, e: Cache, k: Key)
    requires Valid(c) && c.probation != [] && n < |c.probation| && k in c.chunks
    requires k in ProbationTurn(c).chunks ==> Fate(ProbationTurn(c), c.probation[1..][..n], e, k)
    requires k !in ProbationTurn(c).chunks ==> k !in e.chunks
    ensures Fate(c, c.probation[..n + 1], e, k)
  {
    hide Valid;
    ProbationHead(c);
    var key, rest := c.probation[0], c.probation[1..];
    assert c.probation[..n + 1] == [key] + rest[..n] && forall x :: x in rest[..n] ==> x in rest;
  }

  lemma {:induction false} MainOneMore(c: Cache, n: nat)
    requires Valid(c) && c.probation != [] && n < |c.probation|
    ensures ProbationTurn(c).main + Marked(ProbationTurn(c).chunks, c.probation[1..][..n], true) ==
      c.main + Marked(c.chunks, c.probation[..n + 1], true)
  {
    hide Valid;
    ProbationHead(c);
    var key, rest, d := c.probation[0], c.probation[1..], ProbationTurn(c);
    var behind := rest[..n];
    assert c.probation[..n + 1] == [key] + behind && forall k :: k in behind ==> k in rest;
    MarkedConcat(c.chunks, [key], behind, true);
    MarkedOne(c.chunks, key, true);
    MarkedSame(c.chunks, d.chunks, behind, true);
  }

  lemma {:induction false} SiftsOneMore(c: Cache, n: nat, e: Cache)
    requires Valid(c) && c.probation != [] && n < |c.probation|
      && ProbationTurn(c).probation == c.probation[1..] && Sifted(ProbationTurn(c), n, e)
    ensures Sifted(c, n + 1, e)
  {
    hide Valid, Marked, Fate;
    var d := ProbationTurn(c);
    MainOneMore(c, n);
    assert c.probation[1..][n..] == c.probation[n + 1..];
    forall k | k in c.chunks ensures Fate(c, c.probation[..n + 1], e, k) {
      FateOneMore(c, n, e, k);
    }
  }

  /** The probation loop lets go of the fewest chunks, oldest first: hit ones are promoted, the others dropped. */
  lemma {:induction false} ProbationExact(c: Cache) returns (n: nat)
    requires Valid(c)
    ensures Takes(c.chunks, c.probation, n, PROBATION_BYTES) && Sifted(c, n, EvictProbation(c))
    decreases |c.probation|
  {
    hide Valid, Marked, Sum, ProbationTurn, Takes, Sifted;
    CountersAre(c);
    if c.probationBytes > PROBATION_BYTES {
      ProbationNonEmpty(c);
      ProbationTurnValid(c);
      TurnRest(c);
      n := ProbationExact(ProbationTurn(c));
      TakesWithin(ProbationTurn(c).chunks, c.probation[1..], n, PROBATION_BYTES);
      LeavesOneMore(c, n);
      SiftsOneMore(c, n, EvictProbation(c));
      n := n + 1;
    } else {
      n := 0;
      NoneLeaving(c);
    }
  }

  lemma {:induction false} TurnRest(c: Cache)
    requires c.probation != []
    ensures ProbationTurn(c).probation == c.probation[1..]
  {
  }

  lemma {:induction false} TakesWithin(chunks: map<Key, Entry>, keys: seq<Key>, n: nat, limit: nat)
    requires Takes(chunks, keys, n, limit)
    ensures n <= |keys|
  {
  }

  lemma {:induction false} NoneLeaving(c: Cache)
    requires Sum(c.chunks, c.probation) <= PROBATION_BYTES
    ensures Takes(c.chunks, c.probation, 0, PROBATION_BYTES) && Sifted(c, 0, c)
  {
    assert c.probation[0..] == c.probation && c.probation[..0] == [];
  }

  // ----- Shrinking under pressure -----

  lemma {:induction false} LeftOneMore(
    chunks: map<Key, Entry>, key: Key, order: seq<Key>, n: nat, after: map<Key, Entry>)
    requires n <= |order| && Left(chunks - {key}, order, n, after)
    ensures Left(chunks, [key] + order, n + 1, after)
  {
    assert ([key] + order)[..n + 1] == [key] + order[..n];
  }

  /** Shrinking drops the fewest chunks from the front of probation and then of the main queue, hit or not. */
  lemma {:induction false} ShrinkExact(c: Cache, target: nat) returns (n: nat)
    requires Valid(c)
    ensures var all, d := c.probation + c.main, ShrinkTo(c, target);
      && Takes(c.chunks, all, n, target)
      && d.probation + d.main == all[n..]
      && Left(c.chunks, all, n, d.chunks)
    decreases |c.probation| + |c.main|
  {
    hide Valid, Sum, ShrinkTurn, Takes, Left;
    var all := c.probation + c.main;
    BytesAre(c);
    if c.bytes > target {
      BytesNonEmpty(c);
      ShrinkTurnValid(c);
      ShrinkTurnIs(c);
      var d := ShrinkTurn(c);
      n := ShrinkExact(d, target);
      var key, rest := all[0], all[1..];
      assert all == [key] + rest;
      TakesWithin(d.chunks, rest, n, target);
      TakesOneMore(c.chunks, key, rest, n, target);
      LeftOneMore(c.chunks, key, rest, n, ShrinkTo(c, target).chunks);
      assert rest[n..] == all[n + 1..];
      n := n + 1;
    } else {
      n := 0;
      NothingTaken(c.chunks, all, target);
      assert all[0..] == all;
    }
  }

  lemma {:induction false} NothingTaken(chunks: map<Key, Entry>, order: seq<Key>, limit: nat)
    requires Sum(chunks, order) <= limit
    ensures Takes(chunks, order, 0, limit) && Left(chunks, order, 0, chunks)
  {
    assert order[0..] == order && order[..0] == [];
  }

  lemma {:induction false} BytesAre(c: Cache)
    requires Valid(c)
    ensures c.bytes == Sum(c.chunks, c.probation + c.main)
  {
    SumConcat(c.chunks, c.probation, c.main);
  }

  lemma {:induction false} ShrinkTurnIs(c: Cache)
    requires Valid(c) && (c.probation != [] || c.main != [])
    ensures var all, d := c.probation + c.main, ShrinkTurn(c);
      d.chunks == c.chunks - {all[0]} && d.probation + d.main == all[1..] && all[0] !in all[1..]
  {
    var all := c.probation + c.main;
    forall i | 0 < i < |all| ensures all[i] != all[0] {
    }
  }
}
