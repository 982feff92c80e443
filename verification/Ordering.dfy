/** Sorting by a key, as the builders do before every duplicate test. Keys are
    compared lexicographically, a proper prefix first. */
module Ordering {

  type Key = seq<nat>

  predicate Less(a: Key, b: Key) {
    b != [] && (a == [] || a[0] < b[0] || (a[0] == b[0] && Less(a[1..], b[1..])))
  }

  lemma {:induction false} LessTransitive(a: Key, b: Key, c: Key)
    requires Less(a, b) && Less(b, c)
    ensures Less(a, c)
  {
    if a != [] && a[0] == b[0] == c[0] {
      LessTransitive(a[1..], b[1..], c[1..]);
    }
  }

  lemma {:induction false} LessTotal(a: Key, b: Key)
    ensures Less(a, b) || a == b || Less(b, a)
    ensures !(Less(a, b) && Less(b, a)) && !Less(a, a)
  {
    if a != [] && b != [] && a[0] == b[0] {
      LessTotal(a[1..], b[1..]);
      assert a == [a[0]] + a[1..] && b == [b[0]] + b[1..];
    }
    if a != [] {
      LessTotal(a[1..], a[1..]);
    }
  }

  /** Each item strictly below its successor. */
  predicate Ascending<T>(items: seq<T>, key: T -> Key) {
    |items| <= 1 || (Less(key(items[0]), key(items[1])) && Ascending(items[1..], key))
  }

  function Insert<T>(x: T, sorted: seq<T>, key: T -> Key): (r: seq<T>)
    ensures |r| == |sorted| + 1
    ensures multiset(r) == multiset(sorted) + multiset{x}
  {
    if sorted == [] || !Less(key(sorted[0]), key(x)) then [x] + sorted
    else
      assert sorted == [sorted[0]] + sorted[1..];
      [sorted[0]] + Insert(x, sorted[1..], key)
  }

  function Sort<T>(items: seq<T>, key: T -> Key): (r: seq<T>)
    ensures |r| == |items|
    ensures multiset(r) == multiset(items)
  {
    if items == [] then []
    else
      assert items == [items[0]] + items[1..];
      Insert(items[0], Sort(items[1..], key), key)
  }

  function Keys<T>(items: seq<T>, key: T -> Key): set<Key> {
    set i | 0 <= i < |items| :: key(items[i])
  }

  /** No two items share a key. */
  predicate Distinct<T>(items: seq<T>, key: T -> Key) {
    items == [] || (key(items[0]) !in Keys(items[1..], key) && Distinct(items[1..], key))
  }

  lemma {:induction false} KeysSplit<T>(items: seq<T>, key: T -> Key)
    requires items != []
    ensures Keys(items, key) == {key(items[0])} + Keys(items[1..], key)
  {
    forall k | k in Keys(items, key) ensures k in {key(items[0])} + Keys(items[1..], key) {
      var i :| 0 <= i < |items| && k == key(items[i]);
      if i > 0 {
        assert items[1..][i - 1] == items[i];
      }
    }
  }

  lemma {:induction false} InsertKeys<T>(x: T, sorted: seq<T>, key: T -> Key)
    ensures Keys(Insert(x, sorted, key), key) == {key(x)} + Keys(sorted, key)
  {
    var r := Insert(x, sorted, key);
    KeysSplit(r, key);
    if sorted == [] || !Less(key(sorted[0]), key(x)) {
      assert r[1..] == sorted;
    } else {
      assert r[1..] == Insert(x, sorted[1..], key);
      InsertKeys(x, sorted[1..], key);
      KeysSplit(sorted, key);
    }
  }

  lemma {:induction false} InsertAscending<T>(x: T, sorted: seq<T>, key: T -> Key)
    ensures Ascending(Insert(x, sorted, key), key) <==>
      Ascending(sorted, key) && key(x) !in Keys(sorted, key)
  {
    var r := Insert(x, sorted, key);
    if sorted != [] {
      KeysSplit(sorted, key);
      LessTotal(key(x), key(sorted[0]));
      if !Less(key(sorted[0]), key(x)) {
        assert r[1..] == sorted;
        if Ascending(sorted, key) && Less(key(x), key(sorted[0])) {
          AscendingFloor(sorted, key, key(x));
        }
      } else {
        var tail := Insert(x, sorted[1..], key);
        assert r[1..] == tail;
        InsertAscending(x, sorted[1..], key);
        if |sorted| > 1 && tail[0] == x {
          KeysSplit(sorted[1..], key);
          LessTotal(key(x), key(sorted[1]));
          if Less(key(x), key(sorted[1])) {
            LessTransitive(key(sorted[0]), key(x), key(sorted[1]));
          }
        }
      }
    }
  }

  /** Everything in an ascending list lies above what is below its head. */
  lemma {:induction false} AscendingFloor<T>(items: seq<T>, key: T -> Key, k: Key)
    requires Ascending(items, key) && items != [] && Less(k, key(items[0]))
    ensures forall i :: 0 <= i < |items| ==> Less(k, key(items[i]))
    ensures k !in Keys(items, key)
  {
    if |items| > 1 {
      LessTransitive(k, key(items[0]), key(items[1]));
      AscendingFloor(items[1..], key, k);
      assert forall i :: 1 <= i < |items| ==> items[i] == items[1..][i - 1];
    }
    forall i | 0 <= i < |items| ensures key(items[i]) != k {
      LessTotal(k, key(items[i]));
    }
  }

  /** The test after sorting rejects exactly the inputs with two equal keys. */
  lemma {:induction false} SortAscending<T>(items: seq<T>, key: T -> Key)
    ensures Keys(Sort(items, key), key) == Keys(items, key)
    ensures Ascending(Sort(items, key), key) <==> Distinct(items, key)
  {
    if items != [] {
      SortAscending(items[1..], key);
      InsertKeys(items[0], Sort(items[1..], key), key);
      InsertAscending(items[0], Sort(items[1..], key), key);
      KeysSplit(items, key);
    }
  }

  /** Strictly ascending neighbours make every pair ascend. */
  lemma {:induction false} AscendingPairs<T>(items: seq<T>, key: T -> Key, i: nat, j: nat)
    requires Ascending(items, key) && i < j < |items|
    ensures Less(key(items[i]), key(items[j]))
    decreases i
  {
    if i > 0 {
      AscendingPairs(items[1..], key, i - 1, j - 1);
    } else {
      AscendingFloor(items[1..], key, key(items[0]));
      assert items[j] == items[1..][j - 1];
    }
  }

  /** No item strictly below its predecessor. */
  predicate Sorted<T>(items: seq<T>, key: T -> Key) {
    |items| <= 1 || (!Less(key(items[1]), key(items[0])) && Sorted(items[1..], key))
  }

  lemma {:induction false} InsertSorted<T>(x: T, sorted: seq<T>, key: T -> Key)
    requires Sorted(sorted, key)
    ensures Sorted(Insert(x, sorted, key), key)
  {
    var r := Insert(x, sorted, key);
    if sorted != [] {
      if !Less(key(sorted[0]), key(x)) {
        assert r[1..] == sorted;
      } else {
        InsertSorted(x, sorted[1..], key);
        assert r[1..] == Insert(x, sorted[1..], key);
        LessTotal(key(sorted[0]), key(x));
      }
    }
  }

  lemma {:induction false} SortSorted<T>(items: seq<T>, key: T -> Key)
    ensures Sorted(Sort(items, key), key)
  {
    if items != [] {
      SortSorted(items[1..], key);
      InsertSorted(items[0], Sort(items[1..], key), key);
    }
  }

  /** An ascending list is determined by what it holds. */
  lemma {:induction false} AscendingUnique<T>(a: seq<T>, b: seq<T>, key: T -> Key)
    requires Ascending(a, key) && Ascending(b, key)
    requires forall x :: x in a <==> x in b
    ensures a == b
  {
    assert a != [] ==> a[0] in a;
    assert b != [] ==> b[0] in b;
    if a != [] && b != [] {
      HeadIsLeast(a, key);
      HeadIsLeast(b, key);
      assert a[0] in b && b[0] in a;
      LessTotal(key(a[0]), key(b[0]));
      assert a[0] == b[0];
      forall x ensures x in a[1..] <==> x in b[1..] {
        TailHolds(a, key, x);
        TailHolds(b, key, x);
      }
      AscendingUnique(a[1..], b[1..], key);
      assert a == [a[0]] + a[1..] && b == [b[0]] + b[1..];
    }
  }

  lemma {:induction false} HeadIsLeast<T>(a: seq<T>, key: T -> Key)
    requires Ascending(a, key) && a != []
    ensures forall x :: x in a ==> x == a[0] || Less(key(a[0]), key(x))
  {
    forall x | x in a ensures x == a[0] || Less(key(a[0]), key(x)) {
      var i :| 0 <= i < |a| && a[i] == x;
      if i > 0 {
        AscendingPairs(a, key, 0, i);
      }
    }
  }

  lemma {:induction false} TailHolds<T>(a: seq<T>, key: T -> Key, x: T)
    requires Ascending(a, key) && a != []
    ensures x in a[1..] <==> x in a && x != a[0]
  {
    if x in a[1..] {
      var i :| 0 <= i < |a[1..]| && a[1..][i] == x;
      assert a[i + 1] == x;
      AscendingPairs(a, key, 0, i + 1);
      LessTotal(key(a[0]), key(x));
    }
    if x in a && x != a[0] {
      var i :| 0 <= i < |a| && a[i] == x;
      assert a[1..][i - 1] == x;
    }
  }

  /** Distinct lists of one length, the first held by the second, hold the same. */
  lemma {:induction false} DistinctCover<T>(a: seq<T>, b: seq<T>, key: T -> Key)
    requires Distinct(a, key) && |a| == |b|
    requires forall x :: x in a ==> x in b
    ensures forall x :: x in b ==> x in a
  {
    var held := set i | 0 <= i < |a| :: a[i];
    DistinctCount(a, key);
    var all := set i | 0 <= i < |b| :: b[i];
    SetSize(b);
    assert held <= all by {
      assert forall x :: x in held ==> x in a;
    }
    if exists x :: x in b && x !in a {
      var x :| x in b && x !in a;
      assert x in all && x !in held;
      SubsetSize(held, all - {x});
    }
  }

  lemma {:induction false} SubsetSize<T>(a: set<T>, b: set<T>)
    requires a <= b
    ensures |a| <= |b|
  {
    if a != {} {
      var x :| x in a;
      SubsetSize(a - {x}, b - {x});
    }
  }

  lemma {:induction false} SetSize<T>(b: seq<T>)
    ensures |set i | 0 <= i < |b| :: b[i]| <= |b|
  {
    var all := set i | 0 <= i < |b| :: b[i];
    if b != [] {
      var rest := set i | 0 <= i < |b[1..]| :: b[1..][i];
      SetSize(b[1..]);
      assert all <= rest + {b[0]} by {
        forall x | x in all ensures x in rest + {b[0]} {
          var i :| 0 <= i < |b| && b[i] == x;
          if i > 0 {
            assert b[1..][i - 1] == x;
          }
        }
      }
      SubsetSize(all, rest + {b[0]});
    }
  }

  lemma {:induction false} DistinctCount<T>(a: seq<T>, key: T -> Key)
    requires Distinct(a, key)
    ensures |set i | 0 <= i < |a| :: a[i]| == |a|
  {
    var held := set i | 0 <= i < |a| :: a[i];
    if a == [] {
      assert held == {};
    } else {
      var rest := set i | 0 <= i < |a[1..]| :: a[1..][i];
      DistinctCount(a[1..], key);
      assert held == rest + {a[0]} by {
        forall x | x in held ensures x in rest + {a[0]} {
          var i :| 0 <= i < |a| && a[i] == x;
          if i > 0 {
            assert a[1..][i - 1] == x;
          }
        }
      }
      assert a[0] !in rest;
    }
  }

  /** Sorting a sorted list changes nothing. */
  lemma {:induction false} SortFixed<T>(items: seq<T>, key: T -> Key)
    requires Sorted(items, key)
    ensures Sort(items, key) == items
  {
    if items != [] {
      SortFixed(items[1..], key);
      assert items == [items[0]] + items[1..];
    }
  }

  lemma {:induction false} SortMember<T>(items: seq<T>, key: T -> Key, x: T)
    ensures x in Sort(items, key) <==> x in items
  {
    assert x in Sort(items, key) <==> x in multiset(Sort(items, key));
    assert x in items <==> x in multiset(items);
  }

  lemma {:induction false} SortKeeps<T>(items: seq<T>, key: T -> Key, keep: T -> bool)
    requires forall i :: 0 <= i < |items| ==> keep(items[i])
    ensures forall i :: 0 <= i < |items| ==> keep(Sort(items, key)[i])
  {
    forall i | 0 <= i < |items| ensures keep(Sort(items, key)[i]) {
      SortMember(items, key, Sort(items, key)[i]);
    }
  }

  lemma {:induction false} Split<T>(items: seq<T>, p: T -> bool)
    requires items != []
    ensures (forall i :: 0 <= i < |items| ==> p(items[i])) <==>
      p(items[0]) && forall i :: 0 <= i < |items[1..]| ==> p(items[1..][i])
  {
    if p(items[0]) && forall i :: 0 <= i < |items[1..]| ==> p(items[1..][i]) {
      forall i | 0 <= i < |items| ensures p(items[i]) {
        assert i > 0 ==> items[i] == items[1..][i - 1];
      }
    }
  }

  predicate All<T>(items: seq<T>, p: T -> bool) {
    forall i :: 0 <= i < |items| ==> p(items[i])
  }

  /** Sorting changes neither which items there are nor, so, whether all of them have a property. */
  lemma {:induction false} SortAll<T>(items: seq<T>, key: T -> Key, p: T -> bool)
    ensures All(Sort(items, key), p) <==> All(items, p)
  {
    hide Sort;
    var sorted := Sort(items, key);
    if All(items, p) {
      SortKeeps(items, key, p);
      assert All(sorted, p);
    }
    if All(sorted, p) {
      forall i | 0 <= i < |items| ensures p(items[i]) {
        SortMember(items, key, items[i]);
        var j :| 0 <= j < |sorted| && sorted[j] == items[i];
        assert p(sorted[j]);
      }
    }
  }

  lemma {:induction false} DistinctPairs<T>(items: seq<T>, key: T -> Key)
    ensures Distinct(items, key) <==> forall i, j :: 0 <= i < j < |items| ==> key(items[i]) != key(items[j])
  {
    if items != [] {
      var rest := items[1..];
      DistinctPairs(rest, key);
      if Distinct(items, key) {
        forall i, j | 0 <= i < j < |items| ensures key(items[i]) != key(items[j]) {
          assert items[j] == rest[j - 1] && (i > 0 ==> items[i] == rest[i - 1]);
          assert key(rest[j - 1]) in Keys(rest, key);
        }
      }
      if forall i, j :: 0 <= i < j < |items| ==> key(items[i]) != key(items[j]) {
        forall i, j | 0 <= i < j < |rest| ensures key(rest[i]) != key(rest[j]) {
          assert items[i + 1] == rest[i] && items[j + 1] == rest[j];
        }
      }
    }
  }

  // ----- Lists that are each other in another order -----

  lemma {:induction false} SameLength<T>(a: seq<T>, b: seq<T>)
    requires multiset(a) == multiset(b)
    ensures |a| == |b|
  {
    assert |a| == |multiset(a)| == |multiset(b)| == |b|;
  }

  lemma {:induction false} SameMember<T>(a: seq<T>, b: seq<T>, i: nat) returns (j: nat)
    requires multiset(a) == multiset(b) && i < |a|
    ensures j < |b| && b[j] == a[i]
  {
    assert a[i] in multiset(a);
    assert a[i] in b;
    j :| 0 <= j < |b| && b[j] == a[i];
  }

  /** Two equal items are counted twice. */
  lemma {:induction false} CountedTwice<T>(a: seq<T>, i: nat, j: nat)
    requires i < j < |a| && a[i] == a[j]
    ensures multiset(a)[a[i]] >= 2
  {
    assert a == a[..j] + ([a[j]] + a[j + 1..]);
    assert a[i] == a[..j][i];
    assert a[i] in multiset(a[..j]);
  }

  lemma {:induction false} TwiceCounted<T>(a: seq<T>, x: T) returns (i: nat, j: nat)
    requires multiset(a)[x] >= 2
    ensures i < j < |a| && a[i] == a[j] == x
  {
    assert a == [a[0]] + a[1..];
    if a[0] == x {
      i := 0;
      assert x in multiset(a[1..]);
      j :| 0 < j < |a| && a[j] == x;
    } else {
      i, j := TwiceCounted(a[1..], x);
      i, j := i + 1, j + 1;
    }
  }
}
