/** Byte strings, little-endian integers, fixed-width tables and zero-padded
    placement: the vocabulary of every on-disk format in this project. */
module Bytes {

  type byte = b: int | 0 <= b < 256
  type bytes = seq<byte>

  const U16_LIMIT: nat := 0x1_0000
  const U32_LIMIT: nat := 0x1_0000_0000
  const U64_LIMIT: nat := 0x1_0000_0000_0000_0000

  type u16 = x: int | 0 <= x < U16_LIMIT
  type u32 = x: int | 0 <= x < U32_LIMIT
  type u64 = x: int | 0 <= x < U64_LIMIT

  // ----- Little-endian integers -----

  function Pow256(n: nat): (p: nat)
    ensures p > 0
  {
    if n == 0 then 1 else 256 * Pow256(n - 1)
  }

  function LE(v: nat, width: nat): (s: bytes)
    ensures |s| == width
  {
    if width == 0 then [] else [v % 256] + LE(v / 256, width - 1)
  }

  function FromLE(s: bytes): (v: nat)
    ensures v < Pow256(|s|)
  {
    if s == [] then 0 else s[0] + 256 * FromLE(s[1..])
  }

  /** Reading back a written integer gives it again, whenever it fits the width. */
  lemma {:induction false} LERoundTrip(v: nat, width: nat)
    requires v < Pow256(width)
    ensures FromLE(LE(v, width)) == v
  {
    if width > 0 {
      LERoundTrip(v / 256, width - 1);
      assert LE(v, width)[1..] == LE(v / 256, width - 1);
    }
  }

  /** And the other way round: a byte string is the encoding of the number it decodes to. */
  lemma {:induction false} LEOfFrom(s: bytes)
    ensures LE(FromLE(s), |s|) == s
  {
    if s != [] {
      LEOfFrom(s[1..]);
      assert s == [s[0]] + s[1..];
      assert FromLE(s) % 256 == s[0] && FromLE(s) / 256 == FromLE(s[1..]);
    }
  }

  lemma {:induction false} PowValues()
    ensures Pow256(2) == U16_LIMIT
    ensures Pow256(4) == U32_LIMIT
    ensures Pow256(8) == U64_LIMIT
  {
    assert Pow256(1) == 256;
    assert Pow256(3) == 256 * Pow256(2);
    assert Pow256(5) == 256 * Pow256(4);
    assert Pow256(6) == 256 * Pow256(5);
    assert Pow256(7) == 256 * Pow256(6);
  }

  function Put16(v: u16): (s: bytes)
    ensures |s| == 2 && FromLE(s) == v
  {
    PowValues();
    LERoundTrip(v, 2);
    LE(v, 2)
  }

  function Put32(v: u32): (s: bytes)
    ensures |s| == 4 && FromLE(s) == v
  {
    PowValues();
    LERoundTrip(v, 4);
    LE(v, 4)
  }

  function Put64(v: u64): (s: bytes)
    ensures |s| == 8 && FromLE(s) == v
  {
    PowValues();
    LERoundTrip(v, 8);
    LE(v, 8)
  }

  function Get16(s: bytes, offset: nat): u16
    requires offset + 2 <= |s|
  {
    PowValues();
    FromLE(s[offset..offset + 2])
  }

  function Get32(s: bytes, offset: nat): u32
    requires offset + 4 <= |s|
  {
    PowValues();
    FromLE(s[offset..offset + 4])
  }

  function Get64(s: bytes, offset: nat): u64
    requires offset + 8 <= |s|
  {
    PowValues();
    FromLE(s[offset..offset + 8])
  }

  lemma {:induction false} SubSlice<T>(s: seq<T>, a: nat, b: nat, i: nat, j: nat)
    requires a <= b <= |s| && i <= j <= b - a
    ensures s[a..b][i..j] == s[a + i..a + j]
  {
    forall k | 0 <= k < j - i ensures s[a..b][i..j][k] == s[a + i..a + j][k] {
      assert s[a..b][i..j][k] == s[a..b][i + k] == s[a + i + k];
    }
  }

  // ----- Concatenation of many items -----

  function Flat<T>(items: seq<seq<T>>): seq<T> {
    if items == [] then [] else items[0] + Flat(items[1..])
  }

  lemma {:induction false} FlatConcat<T>(a: seq<seq<T>>, b: seq<seq<T>>)
    ensures Flat(a + b) == Flat(a) + Flat(b)
  {
    if a == [] {
      assert a + b == b;
    } else {
      FlatConcat(a[1..], b);
      assert (a + b)[1..] == a[1..] + b;
      var head, rest := a[0], Flat(a[1..]);
      assert Flat(a + b) == head + (rest + Flat(b)) == (head + rest) + Flat(b);
    }
  }

  lemma {:induction false} FlatSnoc<T>(a: seq<seq<T>>, x: seq<T>)
    ensures Flat(a + [x]) == Flat(a) + x
  {
    FlatConcat(a, [x]);
    assert Flat([x]) == x + Flat([x][1..]);
  }

  /** Where item `i` starts inside `Flat(items)`. */
  function Start<T>(items: seq<seq<T>>, i: nat): nat
    requires i <= |items|
  {
    |Flat(items[..i])|
  }

  /** The slice between two consecutive starts is the item itself. */
  lemma {:induction false} FlatSlice<T>(items: seq<seq<T>>, i: nat)
    requires i < |items|
    ensures Start(items, i) + |items[i]| == Start(items, i + 1) <= |Flat(items)|
    ensures Flat(items)[Start(items, i)..Start(items, i + 1)] == items[i]
  {
    assert items == items[..i] + [items[i]] + items[i + 1..];
    FlatConcat(items[..i] + [items[i]], items[i + 1..]);
    FlatSnoc(items[..i], items[i]);
    assert items[..i + 1] == items[..i] + [items[i]];
  }

  lemma {:induction false} StartTotal<T>(items: seq<seq<T>>)
    ensures Start(items, |items|) == |Flat(items)|
    ensures Start(items, 0) == 0
  {
    assert items[..|items|] == items;
  }

  lemma {:induction false} StartMonotone<T>(items: seq<seq<T>>, i: nat, j: nat)
    requires i <= j <= |items|
    ensures Start(items, i) <= Start(items, j) <= |Flat(items)|
    decreases j - i
  {
    if i < j {
      FlatSlice(items, j - 1);
      StartMonotone(items, i, j - 1);
    } else {
      assert items == items[..i] + items[i..];
      FlatConcat(items[..i], items[i..]);
    }
  }

  // ----- Tables of fixed-width records -----

  predicate AllWide<T>(items: seq<seq<T>>, width: nat) {
    forall i :: 0 <= i < |items| ==> |items[i]| == width
  }

  lemma {:induction false} FlatWide<T>(items: seq<seq<T>>, width: nat)
    requires AllWide(items, width)
    ensures |Flat(items)| == |items| * width
  {
    if items != [] {
      FlatWide(items[1..], width);
    }
  }

  /** Record `i` of a table of equal-width records sits at `i * width`. */
  lemma {:induction false} RecordAt<T>(items: seq<seq<T>>, width: nat, i: nat)
    requires AllWide(items, width) && i < |items|
    ensures |Flat(items)| == |items| * width
    ensures 0 <= i * width <= i * width + width <= |Flat(items)|
    ensures Flat(items)[i * width..i * width + width] == items[i]
  {
    FlatSlice(items, i);
    FlatWide(items[..i], width);
    FlatWide(items, width);
  }

  /** A table cut into its records of `width` bytes, the incomplete tail ignored. */
  function Rows(s: bytes, width: nat): (r: seq<bytes>)
    requires width > 0
    ensures |r| == |s| / width && AllWide(r, width)
  {
    if |s| < width then []
    else
      assert |s| / width == 1 + (|s| - width) / width by { DivStep(|s|, width); }
      [s[..width]] + Rows(s[width..], width)
  }

  lemma {:induction false} RowsOfFlat(items: seq<bytes>, width: nat)
    requires width > 0 && AllWide(items, width)
    ensures Rows(Flat(items), width) == items
  {
    if items != [] {
      var s := Flat(items);
      assert s[..width] == items[0] && s[width..] == Flat(items[1..]);
      RowsOfFlat(items[1..], width);
    }
  }

  /** The words of `width` bytes of a table, the incomplete tail ignored. */
  function Words(s: bytes, width: nat): (vs: seq<nat>)
    requires width > 0
    ensures |vs| == |s| / width
    ensures forall i :: 0 <= i < |vs| ==> vs[i] < Pow256(width)
  {
    if |s| < width then
      assert |s| / width == 0 by { DivUnique(|s|, width, 0, |s|); }
      []
    else
      assert |s| / width == 1 + (|s| - width) / width by { DivStep(|s|, width); }
      var word, rest := FromLE(s[..width]), Words(s[width..], width);
      assert word < Pow256(width);
      [word] + rest
  }

  /** A quotient and remainder with `0 <= r < d` are the quotient and the remainder. */
  lemma {:induction false} DivUnique(n: nat, d: nat, q: int, r: int)
    requires d > 0 && n == q * d + r && 0 <= r < d
    ensures n / d == q && n % d == r
  {
    var q0, r0 := n / d, n % d;
    assert n == q0 * d + r0;
    assert (q - q0) * d == r0 - r;
    if q > q0 {
      assert (q - q0) * d >= d by { MulMonotone(1, q - q0, d); }
    } else if q < q0 {
      assert (q0 - q) * d >= d by { MulMonotone(1, q0 - q, d); }
    }
  }

  lemma {:induction false} MulMonotone(a: nat, b: nat, d: nat)
    requires a <= b
    ensures a * d <= b * d
  {
  }

  lemma {:induction false} QuotientBelow(n: nat, d: nat)
    requires d > 0
    ensures n / d <= n
  {
    MulMonotone(1, d, n / d);
    assert n >= d * (n / d);
  }

  lemma {:induction false} DivStep(n: nat, d: nat)
    requires 0 < d <= n
    ensures n / d == 1 + (n - d) / d
  {
    var q, r := (n - d) / d, (n - d) % d;
    assert n - d == q * d + r;
    assert (q + 1) * d == q * d + d;
    DivUnique(n, d, q + 1, r);
  }

  function PutWords(vs: seq<nat>, width: nat): (s: bytes)
    ensures |s| == |vs| * width
  {
    if vs == [] then [] else
      assert |vs| * width == width + (|vs| - 1) * width;
      LE(vs[0], width) + PutWords(vs[1..], width)
  }

  lemma {:induction false} WordsRoundTrip(vs: seq<nat>, width: nat)
    requires width > 0
    requires forall i :: 0 <= i < |vs| ==> vs[i] < Pow256(width)
    ensures Words(PutWords(vs, width), width) == vs
  {
    if vs != [] {
      var s := PutWords(vs, width);
      LERoundTrip(vs[0], width);
      assert s[..width] == LE(vs[0], width);
      assert s[width..] == PutWords(vs[1..], width);
      WordsRoundTrip(vs[1..], width);
    }
  }

  // ----- Zero-padded placement -----

  function Zeros(n: nat): (s: bytes)
    ensures |s| == n
  {
    seq(n, _ => 0)
  }

  predicate AllZero(s: bytes) {
    forall i :: 0 <= i < |s| ==> s[i] == 0
  }

  /** The least multiple of `alignment` that is not below `value`. */
  function AlignUp(value: nat, alignment: nat): (r: nat)
    requires alignment > 0
    ensures value <= r < value + alignment && r % alignment == 0
  {
    var r := (value + alignment - 1) / alignment * alignment;
    AlignFacts(value, alignment);
    r
  }

  lemma {:induction false} AlignFacts(value: nat, alignment: nat)
    requires alignment > 0
    ensures value <= (value + alignment - 1) / alignment * alignment < value + alignment
    ensures (value + alignment - 1) / alignment * alignment % alignment == 0
  {
    var q := (value + alignment - 1) / alignment;
    var m := (value + alignment - 1) % alignment;
    assert value + alignment - 1 == q * alignment + m;
    MultipleMod(q, alignment);
  }

  lemma {:induction false} MultipleMod(q: nat, d: nat)
    requires d > 0
    ensures q * d % d == 0 && q * d / d == q
  {
    DivUnique(q * d, d, q, 0);
  }

  /** Where the zero fill before item `i` begins. */
  function GapStart(from: nat, items: seq<bytes>, offsets: seq<nat>, i: nat): nat
    requires |items| == |offsets| && i <= |items|
  {
    if i == 0 then from else offsets[i - 1] + |items[i - 1]|
  }

  predicate Placeable(from: nat, items: seq<bytes>, offsets: seq<nat>) {
    && |items| == |offsets|
    && forall i {:trigger GapStart(from, items, offsets, i)} ::
         0 <= i < |items| ==> GapStart(from, items, offsets, i) <= offsets[i]
  }

  lemma {:induction false} PlaceableCons(from: nat, items: seq<bytes>, offsets: seq<nat>)
    requires |items| == |offsets| > 0 && from <= offsets[0]
    requires Placeable(offsets[0] + |items[0]|, items[1..], offsets[1..])
    ensures Placeable(from, items, offsets)
  {
    var next := offsets[0] + |items[0]|;
    forall i | 0 <= i < |items| ensures GapStart(from, items, offsets, i) <= offsets[i] {
      if i > 0 {
        assert GapStart(next, items[1..], offsets[1..], i - 1) <= offsets[1..][i - 1];
        assert GapStart(next, items[1..], offsets[1..], i - 1) == GapStart(from, items, offsets, i);
      }
    }
  }

  lemma {:induction false} PlaceablePrefix(from: nat, items: seq<bytes>, offsets: seq<nat>, n: nat)
    requires Placeable(from, items, offsets) && n <= |items|
    ensures Placeable(from, items[..n], offsets[..n])
    ensures forall i :: 0 <= i <= n ==>
      GapStart(from, items[..n], offsets[..n], i) == GapStart(from, items, offsets, i)
  {
    forall i | 0 <= i < n
      ensures GapStart(from, items[..n], offsets[..n], i) <= offsets[..n][i]
    {
      assert GapStart(from, items[..n], offsets[..n], i) == GapStart(from, items, offsets, i);
    }
  }

  /** Append every item at its offset, zero-filling up to it. */
  function Place(prefix: bytes, items: seq<bytes>, offsets: seq<nat>): (s: bytes)
    requires Placeable(|prefix|, items, offsets)
    ensures |s| == GapStart(|prefix|, items, offsets, |items|)
    decreases |items|
  {
    if items == [] then prefix
    else
      var n := |items| - 1;
      PlaceablePrefix(|prefix|, items, offsets, n);
      assert GapStart(|prefix|, items, offsets, n) <= offsets[n];
      var head := Place(prefix, items[..n], offsets[..n]);
      head + Zeros(offsets[n] - |head|) + items[n]
  }

  predicate Placed(s: bytes, from: nat, items: seq<bytes>, offsets: seq<nat>, i: nat)
    requires |items| == |offsets| && i < |items|
  {
    && GapStart(from, items, offsets, i) <= offsets[i]
    && offsets[i] + |items[i]| <= |s|
    && s[offsets[i]..offsets[i] + |items[i]|] == items[i]
    && AllZero(s[GapStart(from, items, offsets, i)..offsets[i]])
  }

  lemma {:induction false} PlacedStays(
    head: bytes, tail: bytes, from: nat, items: seq<bytes>, offsets: seq<nat>, n: nat, i: nat)
    requires |items| == |offsets| && i < n <= |items|
    requires Placed(head, from, items[..n], offsets[..n], i)
    ensures Placed(head + tail, from, items, offsets, i)
  {
    var s := head + tail;
    var gap := GapStart(from, items, offsets, i);
    assert s[offsets[i]..offsets[i] + |items[i]|] == head[offsets[i]..offsets[i] + |items[i]|];
    assert s[gap..offsets[i]] == head[gap..offsets[i]];
  }

  lemma {:induction false} PlacedLast(head: bytes, from: nat, items: seq<bytes>, offsets: seq<nat>)
    requires |items| == |offsets| > 0
    requires |head| == GapStart(from, items, offsets, |items| - 1) <= offsets[|items| - 1]
    ensures Placed(head + Zeros(offsets[|items| - 1] - |head|) + items[|items| - 1], from, items, offsets, |items| - 1)
  {
    var n := |items| - 1;
    var s := head + Zeros(offsets[n] - |head|) + items[n];
    assert s[offsets[n]..offsets[n] + |items[n]|] == items[n];
    assert s[|head|..offsets[n]] == Zeros(offsets[n] - |head|);
  }

  lemma {:induction false} PlaceStep(prefix: bytes, items: seq<bytes>, offsets: seq<nat>)
    requires Placeable(|prefix|, items, offsets) && items != []
    ensures var n := |items| - 1;
      && Placeable(|prefix|, items[..n], offsets[..n])
      && var head := Place(prefix, items[..n], offsets[..n]);
      && |head| == GapStart(|prefix|, items, offsets, n) <= offsets[n]
      && Place(prefix, items, offsets) == head + (Zeros(offsets[n] - |head|) + items[n])
  {
    PlaceablePrefix(|prefix|, items, offsets, |items| - 1);
  }

  lemma {:induction false} PlaceKeepsPrefix(prefix: bytes, items: seq<bytes>, offsets: seq<nat>)
    requires Placeable(|prefix|, items, offsets)
    ensures prefix <= Place(prefix, items, offsets)
    decreases |items|
  {
    if items != [] {
      PlaceStep(prefix, items, offsets);
      PlaceKeepsPrefix(prefix, items[..|items| - 1], offsets[..|items| - 1]);
    }
  }

  /** What is placed stays readable at its offset, and the gap before it is zero. */
  lemma {:induction false} PlaceReads(prefix: bytes, items: seq<bytes>, offsets: seq<nat>, i: nat, s: bytes)
    requires Placeable(|prefix|, items, offsets) && i < |items|
    requires s == Place(prefix, items, offsets)
    ensures Placed(s, |prefix|, items, offsets, i)
    decreases |items|
  {
    var n := |items| - 1;
    PlaceStep(prefix, items, offsets);
    var head := Place(prefix, items[..n], offsets[..n]);
    var tail := Zeros(offsets[n] - |head|) + items[n];
    assert s == head + tail;
    if i < n {
      PlaceReads(prefix, items[..n], offsets[..n], i, head);
      PlacedStays(head, tail, |prefix|, items, offsets, n, i);
    } else {
      assert s == head + Zeros(offsets[n] - |head|) + items[n];
      PlacedLast(head, |prefix|, items, offsets);
    }
  }
}
