/** ULEB128 numbers and the tagged-neighbour code built on them
    (`graph_group.rs`). Unsigned LEB128 is section 7.6 of DWARF Version 5; the
    loader accepts only the shortest form. */
module TaggedNeighbors {
  import opened Wrappers
  import opened Bytes

  const I64_LIMIT: int := 0x8000_0000_0000_0000
  const COUNTER_LIMIT: nat := 0x100_0000_0000

  type i64 = x: int | -I64_LIMIT <= x < I64_LIMIT

  datatype Neighbor = LocalDelta(delta: i64) | Global(nid: u64)

  /** A handle is a non-zero 24-bit epoch above a non-zero 40-bit counter. */
  predicate ValidHandle(raw: u64) {
    raw / COUNTER_LIMIT != 0 && raw % COUNTER_LIMIT != 0
  }

  predicate Encodable(n: Neighbor) {
    n.Global? ==> ValidHandle(n.nid)
  }

  // ----- ULEB128 -----

  function Uleb(v: nat): (s: bytes)
    ensures |s| >= 1
  {
    if v < 128 then [v] else [128 + v % 128] + Uleb(v / 128)
  }

  function UlebValue(s: bytes): nat {
    if s == [] then 0 else s[0] % 128 + 128 * UlebValue(s[1..])
  }

  /** Every byte but the last carries the continuation bit. */
  predicate Terminated(s: bytes) {
    s != [] && s[|s| - 1] < 128 && forall i :: 0 <= i < |s| - 1 ==> s[i] >= 128
  }

  method EncodeUleb128(value: u64, prefix: bytes) returns (out: bytes)
    ensures out == prefix + Uleb(value)
  {
    out := prefix;
    var v: nat := value;
    var more := true;
    while more
      invariant more ==> out + Uleb(v) == prefix + Uleb(value)
      invariant !more ==> out == prefix + Uleb(value)
      decreases more, v
    {
      var low := v % 128;
      var rest := v / 128;
      if rest != 0 {
        assert Uleb(v) == [128 + low] + Uleb(rest);
        assert out + Uleb(v) == out + [128 + low] + Uleb(rest);
        out := out + [128 + low];
      } else {
        assert Uleb(v) == [low];
        out := out + [low];
        more := false;
      }
      v := rest;
    }
  }

  function Pow128(n: nat): (p: nat)
    ensures p > 0
  {
    if n == 0 then 1 else 128 * Pow128(n - 1)
  }

  function DecodeCanonical(s: bytes): Result<u64> {
    if s == [] || |s| > 10 || (|s| == 10 && s[9] > 1) || !Terminated(s) then Err
    else
      ValueFits(s);
      if Uleb(UlebValue(s)) != s then Err else Ok(UlebValue(s))
  }

  lemma {:induction false} ValueBound(s: bytes)
    ensures UlebValue(s) < Pow128(|s|)
  {
    if s != [] {
      ValueBound(s[1..]);
    }
  }

  lemma {:induction false} ValueSplit(a: bytes, b: bytes)
    ensures UlebValue(a + b) == UlebValue(a) + Pow128(|a|) * UlebValue(b)
  {
    if a == [] {
      assert a + b == b;
    } else {
      ValueSplit(a[1..], b);
      assert (a + b)[1..] == a[1..] + b;
      assert Pow128(|a|) * UlebValue(b) == 128 * (Pow128(|a| - 1) * UlebValue(b)) by {
        assert Pow128(|a|) == 128 * Pow128(|a| - 1);
      }
    }
  }

  lemma {:induction false} Pow128Nine()
    ensures Pow128(9) == I64_LIMIT
  {
    assert Pow128(3) == 128 * 128 * 128;
    assert Pow128(6) == 128 * 128 * 128 * Pow128(3);
    assert Pow128(9) == 128 * 128 * 128 * Pow128(6);
  }

  lemma {:induction false} Pow128Monotone(m: nat, n: nat)
    requires m <= n
    ensures Pow128(m) <= Pow128(n)
  {
    if m < n {
      Pow128Monotone(m, n - 1);
    }
  }

  /** At most ten bytes, the tenth at most 1, never exceed 64 bits. */
  lemma {:induction false} ValueFits(s: bytes)
    requires |s| <= 10 && (|s| == 10 ==> s[9] <= 1)
    ensures UlebValue(s) < U64_LIMIT
  {
    Pow128Nine();
    if |s| == 10 {
      ValueSplit(s[..9], s[9..]);
      assert s == s[..9] + s[9..];
      ValueBound(s[..9]);
      assert UlebValue(s[9..]) == s[9] by { assert s[9..][1..] == []; }
    } else {
      ValueBound(s);
      Pow128Monotone(|s|, 9);
    }
  }

  /** The seven bits of the next byte lie above every bit set so far, so `|=` is `+`. */
  lemma {:induction false} NextByte(s: bytes, index: nat)
    requires index < |s|
    ensures UlebValue(s[..index + 1]) == UlebValue(s[..index]) + s[index] % 128 * Pow128(index)
    ensures Pow128(index + 1) == Pow128(index) * 128
  {
    hide UlebValue;
    var last: bytes := [s[index]];
    ValueSplit(s[..index], last);
    assert s[..index + 1] == s[..index] + last;
    OneByte(last);
    Commutes(Pow128(index), s[index] % 128);
  }

  lemma {:induction false} OneByte(s: bytes)
    requires |s| == 1
    ensures UlebValue(s) == s[0] % 128
  {
    assert s[1..] == [];
  }

  lemma {:induction false} Commutes(a: nat, b: nat)
    ensures a * b == b * a
  {
  }

  lemma {:induction false} ValueStart(s: bytes)
    ensures UlebValue(s[..0]) == 0 && Pow128(0) == 1
  {
  }

  /** The accumulating loop: seven bits a byte, the continuation bit on every byte but the last. */
  method AccumulateUleb128(s: bytes) returns (r: Option<nat>)
    requires 0 < |s| <= 10
    ensures r == if (|s| == 10 && s[9] > 1) || !Terminated(s) then None else Some(UlebValue(s))
  {
    hide UlebValue, Pow128;
    ValueStart(s);
    var value: nat := 0;
    var scale: nat := 1;
    for index := 0 to |s|
      invariant value == UlebValue(s[..index])
      invariant scale == Pow128(index)
      invariant index == 10 ==> s[9] <= 1
      invariant forall i :: 0 <= i < index ==> (s[i] < 128 <==> i + 1 == |s|)
    {
      if index == 9 && s[index] > 1 {
        return None;
      }
      NextByte(s, index);
      value := value + s[index] % 128 * scale;
      scale := scale * 128;
      var terminal := s[index] < 128;
      if terminal != (index + 1 == |s|) {
        return None;
      }
    }
    assert s[..|s|] == s;
    return Some(value);
  }

  /** The loader: accumulate, then insist on the shortest form. */
  method DecodeCanonicalUleb128(s: bytes) returns (r: Result<u64>)
    ensures r == DecodeCanonical(s)
  {
    hide UlebValue, Uleb, Terminated;
    if s == [] || |s| > 10 {
      return Err;
    }
    var value := AccumulateUleb128(s);
    if value.None? {
      return Err;
    }
    ValueFits(s);
    var canonical := EncodeUleb128(value.value, []);
    assert [] + Uleb(value.value) == Uleb(value.value);
    if canonical != s {
      return Err;
    }
    return Ok(value.value);
  }

  lemma {:induction false} TerminatedCons(h: byte, t: bytes)
    requires h >= 128 && Terminated(t)
    ensures Terminated([h] + t) && UlebValue([h] + t) == h % 128 + 128 * UlebValue(t)
  {
    assert ([h] + t)[1..] == t;
  }

  lemma {:induction false} UlebReads(v: nat)
    ensures Terminated(Uleb(v)) && UlebValue(Uleb(v)) == v
  {
    if v >= 128 {
      UlebReads(v / 128);
      TerminatedCons(128 + v % 128, Uleb(v / 128));
    } else {
      assert Uleb(v)[1..] == [];
    }
  }

  lemma {:induction false} UlebLength(v: nat, k: nat)
    requires k >= 1 && v < Pow128(k)
    ensures |Uleb(v)| <= k
    ensures |Uleb(v)| == k >= 2 ==> Uleb(v)[k - 1] == v / Pow128(k - 1)
  {
    if v >= 128 {
      assert Pow128(1) == 128;
      UlebLength(v / 128, k - 1);
      assert Uleb(v)[1..] == Uleb(v / 128);
      if |Uleb(v)| == k {
        if k == 2 {
          assert v / 128 < 128;
        } else {
          assert Pow128(k - 1) == 128 * Pow128(k - 2);
          DivTwice(v, 128, Pow128(k - 2));
        }
      }
    }
  }

  lemma {:induction false} DivTwice(n: nat, a: nat, b: nat)
    requires a > 0 && b > 0
    ensures a * b > 0 && n / a / b == n / (a * b)
  {
    MulMonotone(1, a, b);
    var q, r := n / a, n % a;
    var p, t := q / b, q % b;
    assert n == q * a + r && q == p * b + t;
    assert q * a == p * (a * b) + t * a by {
      assert (p * b + t) * a == p * b * a + t * a;
      assert p * b * a == p * (a * b);
    }
    assert t * a + r < a * b by {
      MulMonotone(t + 1, b, a);
      assert (t + 1) * a == t * a + a;
      assert b * a == a * b;
    }
    DivUnique(n, a * b, p, t * a + r);
  }

  /** Encoding then decoding is the identity on every 64-bit value. */
  lemma {:induction false} UlebRoundTrip(v: u64)
    ensures DecodeCanonical(Uleb(v)) == Ok(v)
    ensures |Uleb(v)| <= 10
  {
    Pow128Nine();
    assert Pow128(10) == 128 * Pow128(9);
    UlebReads(v);
    UlebLength(v, 10);
    if |Uleb(v)| == 10 {
      assert Uleb(v)[9] == v / I64_LIMIT;
    }
  }

  /** Significant bits: 64 minus the leading zeros of a 64-bit value. */
  function BitLength(v: nat): nat {
    if v == 0 then 0 else 1 + BitLength(v / 2)
  }

  function UlebLen(v: nat): nat {
    if v == 0 then 1 else (BitLength(v) + 6) / 7
  }

  lemma {:induction false} BitLengthSeven(v: nat)
    requires v >= 128
    ensures BitLength(v) == 7 + BitLength(v / 128)
  {
    var a := v / 2;
    var b := a / 2;
    var c := b / 2;
    var d := c / 2;
    var e := d / 2;
    var f := e / 2;
    assert BitLength(v) == 2 + BitLength(b);
    assert BitLength(b) == 2 + BitLength(d);
    assert BitLength(d) == 2 + BitLength(f);
    assert BitLength(f) == 1 + BitLength(f / 2);
    assert f / 2 == v / 128;
  }

  lemma {:induction false} SmallBitLength(v: nat)
    requires 1 <= v < 128
    ensures 1 <= BitLength(v) <= 7
  {
    assert BitLength(v) <= 1 + BitLength(v / 2);
    assert BitLength(v / 2) <= 1 + BitLength(v / 4);
    assert BitLength(v / 4) <= 1 + BitLength(v / 8);
    assert BitLength(v / 8) <= 1 + BitLength(v / 16);
    assert BitLength(v / 16) <= 1 + BitLength(v / 32);
    assert BitLength(v / 32) <= 1 + BitLength(v / 64);
    assert BitLength(v / 64) <= 1;
  }

  /** The length predicted from the significant bits is the length written. */
  lemma {:induction false} UlebLenExact(v: nat)
    ensures |Uleb(v)| == UlebLen(v)
  {
    if v >= 128 {
      UlebLenExact(v / 128);
      BitLengthSeven(v);
    } else if v > 0 {
      SmallBitLength(v);
    }
  }

  // ----- Zigzag -----

  /** Sign in the lowest bit: 0, -1, 1, -2, ... become 0, 1, 2, 3, ... */
  function ZigzagEncode(v: i64): (r: u64)
    ensures ZigzagDecode(r) == v
  {
    if v >= 0 then 2 * v else -2 * v - 1
  }

  function ZigzagDecode(v: u64): i64 {
    if v % 2 == 0 then v / 2 else -(v / 2) - 1
  }

  lemma {:induction false} ZigzagOnto(v: u64)
    ensures ZigzagEncode(ZigzagDecode(v)) == v
  {
  }

  // ----- One tagged neighbour -----

  function Payload(n: Neighbor): u64 {
    match n
    case LocalDelta(delta) => ZigzagEncode(delta)
    case Global(nid) => nid
  }

  function Encoding(n: Neighbor): (s: bytes)
    ensures |s| >= 2
  {
    [if n.LocalDelta? then 0 else 1] + Uleb(Payload(n))
  }

  function TaggedNeighborEncodedLen(n: Neighbor): Result<nat> {
    if Encodable(n) then Ok(1 + UlebLen(Payload(n))) else Err
  }

  /** One past the first byte without the continuation bit among bytes 1 to 10. */
  function PayloadEnd(s: bytes, from: nat): (r: Option<nat>)
    requires 1 <= from
    ensures r.Some? ==>
      && from < r.value <= |s| && r.value <= 11
      && s[r.value - 1] < 128
      && forall i :: from <= i < r.value - 1 ==> s[i] >= 128
    ensures r.None? ==> forall i :: from <= i < |s| && i <= 10 ==> s[i] >= 128
    decreases |s| - from
  {
    if from >= |s| || from > 10 then None
    else if s[from] < 128 then Some(from + 1)
    else PayloadEnd(s, from + 1)
  }

  function DecodeTaggedNeighborPrefix(s: bytes): Result<(Neighbor, nat)> {
    if s == [] then Err
    else
      match PayloadEnd(s, 1)
      case None => Err
      case Some(end) =>
        var value :- DecodeCanonical(s[1..end]);
        if s[0] == 0 then Ok((LocalDelta(ZigzagDecode(value)), end))
        else if s[0] == 1 && ValidHandle(value) then Ok((Global(value), end))
        else Err
  }

  /** Self-delimiting: whatever follows, the encoding reads back as its value and its own length. */
  lemma {:induction false} DecodeEncoding(n: Neighbor, rest: bytes)
    requires Encodable(n)
    ensures DecodeTaggedNeighborPrefix(Encoding(n) + rest) == Ok((n, |Encoding(n)|))
  {
    hide UlebValue, DecodeCanonical, Uleb;
    var s := Encoding(n) + rest;
    var u := Uleb(Payload(n));
    UlebReads(Payload(n));
    UlebRoundTrip(Payload(n));
    assert s[1..1 + |u|] == u;
    assert forall i :: 0 <= i < |u| ==> s[1 + i] == u[i];
    EndIsTerminator(s, 1, 1 + |u|);
  }

  lemma {:induction false} EndIsTerminator(s: bytes, from: nat, end: nat)
    requires 1 <= from < end <= |s| && end <= 11
    requires s[end - 1] < 128
    requires forall i :: from <= i < end - 1 ==> s[i] >= 128
    ensures PayloadEnd(s, from) == Some(end)
    decreases end - from
  {
    if from < end - 1 {
      EndIsTerminator(s, from + 1, end);
    }
  }

  /** Canonical: every accepted byte string is the encoding of the value it decodes to. */
  lemma {:induction false} EncodingOfDecoded(s: bytes)
    requires DecodeTaggedNeighborPrefix(s).Ok?
    ensures var (n, k) := DecodeTaggedNeighborPrefix(s).value;
      k <= |s| && Encodable(n) && s[..k] == Encoding(n)
  {
    var (n, k) := DecodeTaggedNeighborPrefix(s).value;
    var value := DecodeCanonical(s[1..k]).value;
    ZigzagOnto(value);
    assert s[..k] == [s[0]] + s[1..k];
    assert Payload(n) == value;
  }

  /** The length computed without encoding is the length of the encoding. */
  lemma {:induction false} PredictedLength(n: Neighbor)
    requires Encodable(n)
    ensures TaggedNeighborEncodedLen(n) == Ok(|Encoding(n)|)
    ensures 2 <= |Encoding(n)| <= 11
  {
    UlebLenExact(Payload(n));
    UlebRoundTrip(Payload(n));
  }

  // ----- The neighbour column: an offset table, then the encodings -----

  predicate AllEncodable(ns: seq<Neighbor>) {
    forall i :: 0 <= i < |ns| ==> Encodable(ns[i])
  }

  function Encodings(ns: seq<Neighbor>): (es: seq<bytes>)
    ensures |es| == |ns|
    ensures forall i :: 0 <= i < |ns| ==> es[i] == Encoding(ns[i])
  {
    seq(|ns|, i requires 0 <= i < |ns| => Encoding(ns[i]))
  }

  function Starts(items: seq<bytes>): (offsets: seq<nat>)
    ensures |offsets| == |items| + 1
    ensures forall i :: 0 <= i <= |items| ==> offsets[i] == Start(items, i)
  {
    seq(|items| + 1, i requires 0 <= i <= |items| => Start(items, i))
  }

  function NeighborColumn(ns: seq<Neighbor>): bytes {
    PutWords(Starts(Encodings(ns)), 8) + Flat(Encodings(ns))
  }

  function EncodeTaggedNeighbors(ns: seq<Neighbor>): Result<bytes> {
    if AllEncodable(ns) && |Flat(Encodings(ns))| < U64_LIMIT then Ok(NeighborColumn(ns)) else Err
  }

  function DecodeEntries(blob: bytes, offsets: seq<nat>, i: nat): (r: Result<seq<Neighbor>>)
    requires i < |offsets|
    ensures r.Ok? ==> |r.value| == |offsets| - 1 - i
    decreases |offsets| - i
  {
    if i + 1 == |offsets| then Ok([])
    else if offsets[i] >= offsets[i + 1] || offsets[i + 1] > |blob| then Err
    else
      var entry := blob[offsets[i]..offsets[i + 1]];
      var (n, consumed) :- DecodeTaggedNeighborPrefix(entry);
      :- Need(consumed == |entry|);
      var rest :- DecodeEntries(blob, offsets, i + 1);
      Ok([n] + rest)
  }

  function DecodeTaggedNeighbors(s: bytes, count: nat): (r: Result<seq<Neighbor>>)
    ensures r.Ok? ==> |r.value| == count
  {
    var tableLen := (count + 1) * 8;
    if tableLen > |s| then Err
    else
      assert |s[..tableLen]| / 8 == count + 1;
      var offsets := Words(s[..tableLen], 8);
      var blob := s[tableLen..];
      :- Need(offsets[0] == 0 && offsets[count] == |blob|);
      DecodeEntries(blob, offsets, 0)
  }

  lemma {:induction false} DecodeEntriesOf(ns: seq<Neighbor>, blob: bytes, offsets: seq<nat>, i: nat)
    requires AllEncodable(ns) && i <= |ns|
    requires blob == Flat(Encodings(ns)) && offsets == Starts(Encodings(ns))
    ensures DecodeEntries(blob, offsets, i) == Ok(ns[i..])
    decreases |ns| - i
  {
    hide DecodeTaggedNeighborPrefix, Flat, Encoding;
    if i == |ns| {
      assert ns[i..] == [];
    } else {
      var es := Encodings(ns);
      FlatSlice(es, i);
      assert blob[offsets[i]..offsets[i + 1]] == Encoding(ns[i]);
      DecodeEncoding(ns[i], []);
      assert Encoding(ns[i]) + [] == Encoding(ns[i]);
      DecodeEntriesOf(ns, blob, offsets, i + 1);
      assert ns[i..] == [ns[i]] + ns[i + 1..];
    }
  }

  /** The loader reads back exactly the neighbours the writer stored. */
  lemma {:induction false} NeighborColumnRoundTrip(ns: seq<Neighbor>)
    requires EncodeTaggedNeighbors(ns).Ok?
    ensures DecodeTaggedNeighbors(EncodeTaggedNeighbors(ns).value, |ns|) == Ok(ns)
  {
    var es := Encodings(ns);
    var s := NeighborColumn(ns);
    var offsets := Starts(es);
    PowValues();
    StartTotal(es);
    forall i | 0 <= i < |offsets| ensures offsets[i] < Pow256(8) {
      StartMonotone(es, i, |es|);
    }
    WordsRoundTrip(offsets, 8);
    assert s[..(|ns| + 1) * 8] == PutWords(offsets, 8);
    assert s[(|ns| + 1) * 8..] == Flat(es);
    DecodeEntriesOf(ns, Flat(es), offsets, 0);
    assert ns[0..] == ns;
  }
}
