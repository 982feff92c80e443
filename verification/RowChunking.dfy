/** How one adjacency row is divided between the inline arrays and its overflow
    chain (`graph_edge.rs`): the greedy writer, the loader's acceptance test, and
    the proof that the test admits one division only. Generic in the row's
    entries, whose encoded lengths are given by `len`. */
module RowChunking {
  import opened Bytes

  const CHUNK_PAYLOAD_BYTES: nat := 65520

  function Sum<T>(items: seq<T>, len: T -> nat): nat {
    if items == [] then 0 else len(items[0]) + Sum(items[1..], len)
  }

  lemma {:induction false} SumConcat<T>(a: seq<T>, b: seq<T>, len: T -> nat)
    ensures Sum(a + b, len) == Sum(a, len) + Sum(b, len)
  {
    if a == [] {
      assert a + b == b;
    } else {
      SumConcat(a[1..], b, len);
      assert (a + b)[1..] == a[1..] + b;
    }
  }

  // ----- The writer -----

  /** How many leading entries fit a chunk that already holds `used` bytes. */
  function PrefixCount<T>(items: seq<T>, len: T -> nat, used: nat): (k: nat)
    ensures k <= |items|
  {
    if items == [] || used + len(items[0]) > CHUNK_PAYLOAD_BYTES then 0
    else 1 + PrefixCount(items[1..], len, used + len(items[0]))
  }

  /** The prefix fits and is maximal. */
  lemma {:induction false} PrefixCountMaximal<T>(items: seq<T>, len: T -> nat, used: nat)
    requires used <= CHUNK_PAYLOAD_BYTES
    ensures var k := PrefixCount(items, len, used);
      && used + Sum(items[..k], len) <= CHUNK_PAYLOAD_BYTES
      && (k < |items| ==> used + Sum(items[..k], len) + len(items[k]) > CHUNK_PAYLOAD_BYTES)
  {
    var k := PrefixCount(items, len, used);
    if k > 0 {
      PrefixCountMaximal(items[1..], len, used + len(items[0]));
      assert items[..k][1..] == items[1..][..k - 1];
    }
  }

  method MaximalEdgePrefix<T>(items: seq<T>, len: T -> nat) returns (count: nat)
    ensures count == PrefixCount(items, len, 0)
  {
    var used: nat := 0;
    count := 0;
    while count < |items|
      invariant count <= |items|
      invariant PrefixCount(items, len, 0) == count + PrefixCount(items[count..], len, used)
      decreases |items| - count
    {
      assert items[count..][1..] == items[count + 1..];
      var next := used + len(items[count]);
      if next > CHUNK_PAYLOAD_BYTES {
        break;
      }
      used := next;
      count := count + 1;
    }
  }

  function Pack<T>(items: seq<T>, len: T -> nat): (parts: seq<seq<T>>)
    decreases |items|
  {
    if items == [] then []
    else
      // An entry longer than a chunk is refused before packing.
      var k := if PrefixCount(items, len, 0) == 0 then 1 else PrefixCount(items, len, 0);
      [items[..k]] + Pack(items[k..], len)
  }

  /** The writer's inner loop: take entries until the next one does not fit. */
  method FillChunk<T>(items: seq<T>, first: nat, len: T -> nat) returns (index: nat)
    requires first < |items|
    requires forall x :: x in items ==> 0 < len(x) <= CHUNK_PAYLOAD_BYTES
    ensures first < index <= |items|
    ensures index == first + PrefixCount(items[first..], len, 0)
  {
    index := first;
    var payload: nat := 0;
    while index < |items|
      invariant first <= index <= |items|
      invariant payload == 0 <==> index == first
      invariant PrefixCount(items[first..], len, 0) == index - first + PrefixCount(items[index..], len, payload)
      decreases |items| - index
    {
      assert items[index] in items;
      assert items[index..][1..] == items[index + 1..];
      var tuple := len(items[index]);
      if payload != 0 && payload + tuple > CHUNK_PAYLOAD_BYTES {
        break;
      }
      payload := payload + tuple;
      index := index + 1;
    }
  }

  /** The writer's outer loop: one chunk after another until the row is used up. */
  method PackOverflowChunks<T>(items: seq<T>, len: T -> nat) returns (chunks: seq<seq<T>>)
    requires forall x :: x in items ==> 0 < len(x) <= CHUNK_PAYLOAD_BYTES
    ensures chunks == Pack(items, len)
  {
    chunks := [];
    var index := 0;
    assert items[0..] == items;
    while index < |items|
      invariant index <= |items|
      invariant Pack(items, len) == chunks + Pack(items[index..], len)
    {
      var next := FillChunk(items, index, len);
      PackStep(items, index, next, len);
      chunks := chunks + [items[index..next]];
      index := next;
    }
  }

  lemma {:induction false} PackStep<T>(items: seq<T>, first: nat, next: nat, len: T -> nat)
    requires first < next <= |items| && next == first + PrefixCount(items[first..], len, 0)
    ensures Pack(items[first..], len) == [items[first..next]] + Pack(items[next..], len)
  {
    var rest := items[first..];
    assert rest[..next - first] == items[first..next];
    assert rest[next - first..] == items[next..];
  }

  // ----- The loader -----

  /** The checks on a chain: chunks are non-empty, fit, and the next entry never fitted the previous chunk. */
  predicate ChunksAccepted<T>(parts: seq<seq<T>>, len: T -> nat) {
    parts == [] ||
    (&& parts[0] != []
     && Sum(parts[0], len) <= CHUNK_PAYLOAD_BYTES
     && ChunksAccepted(parts[1..], len)
     && (|parts| > 1 ==> Sum(parts[0], len) + len(parts[1][0]) > CHUNK_PAYLOAD_BYTES))
  }

  /** The checks on a row: an inline part that fits, and is full whenever a chain follows it. */
  predicate RowAccepted<T>(inline: seq<T>, parts: seq<seq<T>>, len: T -> nat) {
    && Sum(inline, len) <= CHUNK_PAYLOAD_BYTES
    && ChunksAccepted(parts, len)
    && (parts != [] ==> Sum(inline, len) + len(parts[0][0]) > CHUNK_PAYLOAD_BYTES)
  }

  /** What the writer stores for a row. */
  function WrittenInline<T>(row: seq<T>, len: T -> nat): seq<T> {
    row[..PrefixCount(row, len, 0)]
  }

  function WrittenChunks<T>(row: seq<T>, len: T -> nat): seq<seq<T>> {
    Pack(row[PrefixCount(row, len, 0)..], len)
  }

  // ----- The loader accepts the writer's division -----

  lemma {:induction false} PackAccepted<T>(items: seq<T>, len: T -> nat)
    requires forall x :: x in items ==> 0 < len(x) <= CHUNK_PAYLOAD_BYTES
    ensures Flat(Pack(items, len)) == items
    ensures ChunksAccepted(Pack(items, len), len)
    ensures items != [] ==> Pack(items, len) != [] && Pack(items, len)[0][0] == items[0]
    decreases |items|
  {
    if items != [] {
      assert items[0] in items;
      var k := PrefixCount(items, len, 0);
      PrefixCountMaximal(items, len, 0);
      var rest := items[k..];
      assert forall x :: x in rest ==> x in items;
      PackAccepted(rest, len);
      var parts := Pack(items, len);
      assert parts == [items[..k]] + Pack(rest, len) && parts[1..] == Pack(rest, len);
      assert items == items[..k] + rest;
    }
  }

  lemma {:induction false} WrittenRowAccepted<T>(row: seq<T>, len: T -> nat)
    requires forall x :: x in row ==> 0 < len(x) <= CHUNK_PAYLOAD_BYTES
    ensures WrittenInline(row, len) + Flat(WrittenChunks(row, len)) == row
    ensures RowAccepted(WrittenInline(row, len), WrittenChunks(row, len), len)
  {
    var k := PrefixCount(row, len, 0);
    PrefixCountMaximal(row, len, 0);
    assert row == row[..k] + row[k..];
    assert forall x :: x in row[k..] ==> x in row;
    PackAccepted(row[k..], len);
  }

  // ----- The loader accepts nothing else -----

  /** A part that fits and cannot take the next entry has exactly the greedy length. */
  lemma {:induction false} FullPrefixCount<T>(part: seq<T>, rest: seq<T>, len: T -> nat, used: nat)
    requires used + Sum(part, len) <= CHUNK_PAYLOAD_BYTES
    requires rest != [] ==> used + Sum(part, len) + len(rest[0]) > CHUNK_PAYLOAD_BYTES
    ensures PrefixCount(part + rest, len, used) == |part|
    decreases |part|
  {
    if part == [] {
      assert part + rest == rest;
    } else {
      assert (part + rest)[1..] == part[1..] + rest;
      FullPrefixCount(part[1..], rest, len, used + len(part[0]));
    }
  }

  lemma {:induction false} AcceptedIsPack<T>(parts: seq<seq<T>>, len: T -> nat)
    requires ChunksAccepted(parts, len)
    ensures Pack(Flat(parts), len) == parts
    ensures parts != [] ==> Flat(parts) != [] && Flat(parts)[0] == parts[0][0]
    decreases |parts|
  {
    if parts != [] {
      var tail := parts[1..];
      AcceptedIsPack(tail, len);
      var items := Flat(parts);
      assert items == parts[0] + Flat(tail);
      FullPrefixCount(parts[0], Flat(tail), len, 0);
      assert items[..|parts[0]|] == parts[0] && items[|parts[0]|..] == Flat(tail);
      assert parts == [parts[0]] + tail;
    }
  }

  /** One division only: the loader's tests on a row hold exactly for what the greedy writer stores. */
  lemma {:induction false} RowDivisionUnique<T>(inline: seq<T>, parts: seq<seq<T>>, len: T -> nat)
    requires forall x :: x in inline + Flat(parts) ==> 0 < len(x) <= CHUNK_PAYLOAD_BYTES
    ensures var row := inline + Flat(parts);
      RowAccepted(inline, parts, len) <==>
        inline == WrittenInline(row, len) && parts == WrittenChunks(row, len)
  {
    var row := inline + Flat(parts);
    if RowAccepted(inline, parts, len) {
      AcceptedIsPack(parts, len);
      FullPrefixCount(inline, Flat(parts), len, 0);
      assert row[..|inline|] == inline && row[|inline|..] == Flat(parts);
    }
    if inline == WrittenInline(row, len) && parts == WrittenChunks(row, len) {
      WrittenRowAccepted(row, len);
    }
  }

  /** Two accepted stored forms of one row are the same stored form. */
  lemma {:induction false} AcceptedDivisionsAgree<T>(
    inline: seq<T>, parts: seq<seq<T>>, inline': seq<T>, parts': seq<seq<T>>, len: T -> nat)
    requires forall x :: x in inline + Flat(parts) ==> 0 < len(x) <= CHUNK_PAYLOAD_BYTES
    requires inline + Flat(parts) == inline' + Flat(parts')
    requires RowAccepted(inline, parts, len) && RowAccepted(inline', parts', len)
    ensures inline == inline' && parts == parts'
  {
    RowDivisionUnique(inline, parts, len);
    RowDivisionUnique(inline', parts', len);
  }

  // ----- The writer uses the fewest chunks -----

  /** The items cut into consecutive parts that each fit a chunk. */
  predicate Cut<T(==)>(parts: seq<seq<T>>, items: seq<T>, len: T -> nat) {
    Flat(parts) == items && forall i :: 0 <= i < |parts| ==> Sum(parts[i], len) <= CHUNK_PAYLOAD_BYTES
  }

  lemma {:induction false} PrefixReaches<T>(a: seq<T>, b: seq<T>, len: T -> nat, used: nat)
    requires used + Sum(a, len) <= CHUNK_PAYLOAD_BYTES
    ensures PrefixCount(a + b, len, used) >= |a|
    decreases |a|
  {
    if a != [] {
      assert (a + b)[1..] == a[1..] + b;
      PrefixReaches(a[1..], b, len, used + len(a[0]));
    }
  }

  lemma {:induction false} SumSuffix<T>(items: seq<T>, i: nat, len: T -> nat)
    requires i <= |items|
    ensures Sum(items[i..], len) <= Sum(items, len)
  {
    assert items == items[..i] + items[i..];
    SumConcat(items[..i], items[i..], len);
  }

  lemma {:induction false} PackSuffix<T>(parts: seq<seq<T>>, i: nat, len: T -> nat)
    requires i <= |Flat(parts)|
    requires forall j :: 0 <= j < |parts| ==> Sum(parts[j], len) <= CHUNK_PAYLOAD_BYTES
    ensures |Pack(Flat(parts)[i..], len)| <= |parts|
    decreases |parts|
  {
    if parts != [] {
      var head, tail := parts[0], Flat(parts[1..]);
      var rest := Flat(parts)[i..];
      if i >= |head| {
        assert rest == tail[i - |head|..];
        PackSuffix(parts[1..], i - |head|, len);
      } else if rest != [] {
        assert rest == head[i..] + tail;
        SumSuffix(head, i, len);
        PrefixReaches(head[i..], tail, len, 0);
        var k := if PrefixCount(rest, len, 0) == 0 then 1 else PrefixCount(rest, len, 0);
        assert rest[k..] == tail[k - |head| + i..];
        PackSuffix(parts[1..], k - |head| + i, len);
      }
    }
  }

  /** No division into parts that fit has fewer parts than the greedy one. */
  lemma {:induction false} PackLeast<T>(parts: seq<seq<T>>, items: seq<T>, len: T -> nat)
    requires Cut(parts, items, len)
    ensures |Pack(items, len)| <= |parts|
  {
    PackSuffix(parts, 0, len);
    assert items[0..] == items;
  }
}
