/** Row bitmaps of the edge-property columns and the ranks counted from them (`set_bit`, `validate_bitmaps`,
    the checkpoint loop of `validate_columns` and `non_null_rank` in `graph_edgeprop.rs`). */
module Bitmaps {
  import opened Bytes

  // ----- Bits of a byte -----

  predicate Bit(b: nat, i: nat) {
    if i == 0 then b % 2 == 1 else Bit(b / 2, i - 1)
  }

  /** The byte with bit `i` set. */
  function SetBit(b: nat, i: nat): nat {
    if i == 0 then b / 2 * 2 + 1 else b % 2 + 2 * SetBit(b / 2, i - 1)
  }

  lemma {:induction false} SetBitMeans(b: nat, i: nat, j: nat)
    ensures Bit(SetBit(b, i), j) == (j == i || Bit(b, j))
    decreases i
  {
    if i > 0 {
      var rest := SetBit(b / 2, i - 1);
      assert SetBit(b, i) / 2 == rest && SetBit(b, i) % 2 == b % 2;
      if j > 0 {
        SetBitMeans(b / 2, i - 1, j - 1);
      }
    } else {
      assert SetBit(b, i) / 2 == b / 2;
    }
  }

  function Pow2(n: nat): nat {
    if n == 0 then 1 else 2 * Pow2(n - 1)
  }

  lemma {:induction false} SetBitFits(b: nat, i: nat, w: nat)
    requires b < Pow2(w) && i < w
    ensures SetBit(b, i) < Pow2(w)
    decreases w
  {
    var half := Pow2(w - 1);
    assert Pow2(w) == 2 * half;
    hide Pow2;
    assert b / 2 < half;
    if i > 0 {
      SetBitFits(b / 2, i - 1, w - 1);
    }
  }

  /** Numbers of `w` bits are equal when their bits are. */
  lemma {:induction false} BitsTell(a: nat, b: nat, w: nat)
    requires a < Pow2(w) && b < Pow2(w)
    requires forall i :: 0 <= i < w ==> Bit(a, i) == Bit(b, i)
    ensures a == b
    decreases w
  {
    if w > 0 {
      assert Bit(a, 0) == Bit(b, 0);
      forall i | 0 <= i < w - 1 ensures Bit(a / 2, i) == Bit(b / 2, i) {
        assert Bit(a, i + 1) == Bit(b, i + 1);
      }
      BitsTell(a / 2, b / 2, w - 1);
    }
  }

  lemma {:induction false} ByteBits()
    ensures Pow2(8) == 256
  {
    assert Pow2(4) == 16;
    assert Pow2(6) == 64;
  }

  // ----- Bitmaps -----

  function ByteLen(rows: nat): nat {
    (rows + 7) / 8
  }

  predicate BitAt(bitmap: bytes, row: nat)
    requires row / 8 < |bitmap|
  {
    Bit(bitmap[row / 8], row % 8)
  }

  /** The low `w` bits, one a row, from row `at`; rows past the end are clear. */
  function PackByte(bits: seq<bool>, at: nat, w: nat): (b: nat)
    ensures b < Pow2(w)
    decreases w
  {
    if w == 0 then 0
    else (if at < |bits| && bits[at] then 1 else 0) + 2 * PackByte(bits, at + 1, w - 1)
  }

  lemma {:induction false} PackByteBit(bits: seq<bool>, at: nat, w: nat, i: nat)
    requires i < w
    ensures Bit(PackByte(bits, at, w), i) == (at + i < |bits| && bits[at + i])
    decreases w
  {
    var rest := PackByte(bits, at + 1, w - 1);
    assert PackByte(bits, at, w) / 2 == rest;
    if i > 0 {
      PackByteBit(bits, at + 1, w - 1, i - 1);
    }
  }

  function Packed(bits: seq<bool>): (s: bytes)
    ensures |s| == ByteLen(|bits|)
  {
    ByteBits();
    seq(ByteLen(|bits|), k requires 0 <= k < ByteLen(|bits|) => PackByte(bits, 8 * k, 8))
  }

  lemma {:induction false} PackedBit(bits: seq<bool>, row: nat)
    requires row / 8 < ByteLen(|bits|)
    ensures BitAt(Packed(bits), row) == (row < |bits| && bits[row])
  {
    PackByteBit(bits, 8 * (row / 8), 8, row % 8);
    assert 8 * (row / 8) + row % 8 == row;
  }

  /** A bitmap is known by the bits of its rows. */
  lemma {:induction false} PackedUnique(bits: seq<bool>, s: bytes)
    requires |s| == ByteLen(|bits|)
    requires forall row :: 0 <= row < 8 * |s| ==> BitAt(s, row) == (row < |bits| && bits[row])
    ensures s == Packed(bits)
  {
    var p := Packed(bits);
    forall k | 0 <= k < |s| ensures s[k] == p[k] {
      ByteBits();
      forall i | 0 <= i < 8 ensures Bit(s[k], i) == Bit(p[k], i) {
        var row := 8 * k + i;
        assert row / 8 == k && row % 8 == i;
        assert BitAt(s, row) == (row < |bits| && bits[row]);
        PackedBit(bits, row);
      }
      BitsTell(s[k], p[k], 8);
    }
  }

  /** The bitmap marks exactly the given rows; later rows are clear. */
  predicate Marks(bitmap: bytes, bits: seq<bool>) {
    forall row: nat :: row < 8 * |bitmap| ==> Bit(bitmap[row / 8], row % 8) == (row < |bits| && bits[row])
  }

  lemma {:induction false} MarksPacked(bitmap: bytes, bits: seq<bool>)
    requires |bitmap| == ByteLen(|bits|) && Marks(bitmap, bits)
    ensures bitmap == Packed(bits)
  {
    hide Bit;
    forall row | 0 <= row < 8 * |bitmap| ensures BitAt(bitmap, row) == (row < |bits| && bits[row]) {
    }
    PackedUnique(bits, bitmap);
  }

  lemma {:induction false} ZerosMark(bitmap: bytes)
    requires forall k :: 0 <= k < |bitmap| ==> bitmap[k] == 0
    ensures Marks(bitmap, [])
  {
    hide Bit;
    forall row: nat | row < 8 * |bitmap| ensures !Bit(bitmap[row / 8], row % 8) {
      ZeroClear(row % 8);
    }
  }

  /** A row that is not marked leaves the bitmap as it is. */
  lemma {:induction false} MarksSkip(bitmap: bytes, bits: seq<bool>)
    requires Marks(bitmap, bits)
    ensures Marks(bitmap, bits + [false])
  {
    hide Bit;
  }

  /** `set_bit`: the next row becomes marked. */
  method MarkRow(bitmap: array<byte>, row: nat, ghost bits: seq<bool>)
    requires row < 8 * bitmap.Length && |bits| == row && Marks(bitmap[..], bits)
    modifies bitmap
    ensures Marks(bitmap[..], bits + [true])
  {
    hide Bit, SetBit;
    ByteBits();
    SetBitFits(bitmap[row / 8], row % 8, 8);
    ghost var before := bitmap[..];
    bitmap[row / 8] := SetBit(bitmap[row / 8], row % 8);
    forall r: nat | r < 8 * bitmap.Length
      ensures Bit(bitmap[..][r / 8], r % 8) == (r < |bits + [true]| && (bits + [true])[r])
    {
      assert Bit(before[r / 8], r % 8) == (r < row && bits[r]);
      if r / 8 == row / 8 {
        SetBitMeans(before[row / 8], row % 8, r % 8);
      } else {
        assert bitmap[..][r / 8] == before[r / 8];
      }
    }
  }

  lemma {:induction false} ZeroClear(i: nat)
    ensures !Bit(0, i)
  {
    if i > 0 {
      ZeroClear(i - 1);
    }
  }

  // ----- Ranks -----

  /** How many of the low `w` bits are set in `p` and clear in `n`: the ones of `p & !n`, masked. */
  function Ones(p: nat, n: nat, w: nat): (c: nat)
    ensures c <= w
  {
    if w == 0 then 0 else Ones(p, n, w - 1) + (if Bit(p, w - 1) && !Bit(n, w - 1) then 1 else 0)
  }

  predicate HasData(presence: bytes, nulls: bytes, row: nat)
    requires |presence| == |nulls| && row < 8 * |presence|
  {
    BitAt(presence, row) && !BitAt(nulls, row)
  }

  /** How many earlier rows hold a value that is not null. */
  function Rank(presence: bytes, nulls: bytes, row: nat): (c: nat)
    requires |presence| == |nulls| && row <= 8 * |presence|
    ensures c <= row
  {
    if row == 0 then 0 else Rank(presence, nulls, row - 1) + (if HasData(presence, nulls, row - 1) then 1 else 0)
  }

  lemma {:induction false} RankInByte(presence: bytes, nulls: bytes, k: nat, w: nat)
    requires |presence| == |nulls| && k < |presence| && w <= 8
    ensures Rank(presence, nulls, 8 * k + w) == Rank(presence, nulls, 8 * k) + Ones(presence[k], nulls[k], w)
  {
    hide Bit;
    if w > 0 {
      RankInByte(presence, nulls, k, w - 1);
      var row := 8 * k + w - 1;
      assert row / 8 == k && row % 8 == w - 1;
      assert HasData(presence, nulls, row) == (Bit(presence[k], w - 1) && !Bit(nulls[k], w - 1));
    }
  }

  /** No row from `a` on holds a value, so the rank stays. */
  lemma {:induction false} RankFlat(presence: bytes, nulls: bytes, a: nat, b: nat)
    requires |presence| == |nulls| && a <= b <= 8 * |presence|
    requires forall row :: a <= row < b ==> !HasData(presence, nulls, row)
    ensures Rank(presence, nulls, a) == Rank(presence, nulls, b)
    decreases b
  {
    if a < b {
      RankFlat(presence, nulls, a, b - 1);
    }
  }

  /** The rank of the first row of block `b`, or of all rows after the last block. */
  function BlockStart(len: nat, b: nat): nat {
    if 4096 * b <= len then 4096 * b else len
  }

  predicate Checkpointed(presence: bytes, nulls: bytes, checkpoints: seq<nat>)
    requires |presence| == |nulls|
  {
    && |checkpoints| == 1 + (|presence| + 4095) / 4096
    && forall b :: 0 <= b < |checkpoints| ==> checkpoints[b] == Rank(presence, nulls, 8 * BlockStart(|presence|, b))
  }

  /** What the open check demands of one byte pair: the nulls are present. */
  predicate Subset(n: nat, p: nat) {
    forall i :: 0 <= i < 8 ==> Bit(n, i) ==> Bit(p, i)
  }

  /** No bit from `w` on is set. */
  predicate TailClear(b: nat, w: nat) {
    forall i :: w <= i < 8 ==> !Bit(b, i)
  }

  /** The bitmaps are as long as the rows need, nulls are present rows, and no bit lies past the rows. */
  predicate BitmapsValid(presence: bytes, nulls: bytes, rows: nat) {
    && |presence| == |nulls| == ByteLen(rows)
    && (forall k :: 0 <= k < |presence| ==> Subset(nulls[k], presence[k]))
    && (rows % 8 != 0 && presence != [] ==>
          TailClear(presence[|presence| - 1], rows % 8) && TailClear(nulls[|nulls| - 1], rows % 8))
  }

  /** `validate_bitmaps` on one block. */
  predicate BlockValid(presence: bytes, nulls: bytes, rows: nat) {
    && |presence| == |nulls|
    && (forall k :: 0 <= k < |presence| ==> Subset(nulls[k], presence[k]))
    && (rows % 8 != 0 && presence != [] ==>
          TailClear(presence[|presence| - 1], rows % 8) && TailClear(nulls[|nulls| - 1], rows % 8))
  }

  method CountOnes(presence: bytes, nulls: bytes, from: nat, to: nat) returns (count: nat)
    requires |presence| == |nulls| && from <= to <= |presence|
    ensures Rank(presence, nulls, 8 * from) + count == Rank(presence, nulls, 8 * to)
  {
    hide Ones, Rank, Bit;
    count := 0;
    for k := from to to
      invariant Rank(presence, nulls, 8 * from) + count == Rank(presence, nulls, 8 * k)
    {
      RankInByte(presence, nulls, k, 8);
      count := count + Ones(presence[k], nulls[k], 8);
    }
  }

  /** The block loop of `validate_columns`: it accepts exactly the valid bitmaps, and leaves at the start
      of every block the true rank of its first row. */
  method ValidateBitmaps(presence: bytes, nulls: bytes, rows: nat) returns (ok: bool, checkpoints: seq<nat>, count: nat)
    requires |presence| == |nulls| == ByteLen(rows)
    ensures ok == BitmapsValid(presence, nulls, rows)
    ensures ok ==> Checkpointed(presence, nulls, checkpoints) && count == Rank(presence, nulls, 8 * |presence|)
  {
    hide Rank, Subset, TailClear;
    checkpoints, count := [0], 0;
    assert Rank(presence, nulls, 0) == 0 by {
      RankZero(presence, nulls);
    }
    var start := 0;
    var len := |presence|;
    while start < len
      invariant |checkpoints| >= 1 && start == BlockStart(len, |checkpoints| - 1)
      invariant start < len ==> start == 4096 * (|checkpoints| - 1)
      invariant |checkpoints| == 1 + (start + 4095) / 4096
      invariant count == Rank(presence, nulls, 8 * start)
      invariant forall b :: 0 <= b < |checkpoints| ==> checkpoints[b] == Rank(presence, nulls, 8 * BlockStart(len, b))
      invariant forall k :: 0 <= k < start ==> Subset(nulls[k], presence[k])
      invariant start == len && len > 0 && rows % 8 != 0 ==>
        && TailClear(presence[len - 1], rows % 8)
        && TailClear(nulls[len - 1], rows % 8)
    {
      var end := if start + 4096 <= len then start + 4096 else len;
      var blockRows := if rows - start * 8 <= 4096 * 8 then rows - start * 8 else 4096 * 8;
      BlockMeans(presence, nulls, rows, start, end, blockRows);
      if !BlockValid(presence[start..end], nulls[start..end], blockRows) {
        return false, [], 0;
      }
      var more := CountOnes(presence, nulls, start, end);
      count := count + more;
      checkpoints := checkpoints + [count];
      start := end;
    }
    return true, checkpoints, count;
  }

  lemma {:induction false} RankZero(presence: bytes, nulls: bytes)
    requires |presence| == |nulls|
    ensures Rank(presence, nulls, 0) == 0
  {
  }

  /** The check of a block is the check of its bytes, and of the last byte's tail when it is the last block. */
  lemma {:induction false} BlockMeans(presence: bytes, nulls: bytes, rows: nat, start: nat, end: nat, blockRows: nat)
    requires |presence| == |nulls| == ByteLen(rows) && start < end <= |presence|
    requires end == |presence| || end == start + 4096
    requires end <= start + 4096
    requires blockRows == if rows - start * 8 <= 4096 * 8 then rows - start * 8 else 4096 * 8
    ensures BlockValid(presence[start..end], nulls[start..end], blockRows) <==>
      && (forall k :: start <= k < end ==> Subset(nulls[k], presence[k]))
      && (end == |presence| && rows % 8 != 0 ==>
             && TailClear(presence[end - 1], rows % 8)
             && TailClear(nulls[end - 1], rows % 8))
  {
    hide Subset, TailClear;
    var p, n := presence[start..end], nulls[start..end];
    var last := end - 1 - start;
    assert |p| - 1 == last && p[last] == presence[start + last] && n[last] == nulls[start + last];
    BlockTail(rows, start, end, blockRows);
    if BlockValid(p, n, blockRows) {
      forall k | start <= k < end ensures Subset(nulls[k], presence[k]) {
        assert Subset(n[k - start], p[k - start]);
      }
    }
  }

  lemma {:induction false} BlockTail(rows: nat, start: nat, end: nat, blockRows: nat)
    requires start < end <= ByteLen(rows) && end <= start + 4096
    requires end == ByteLen(rows) || end == start + 4096
    requires blockRows == if rows - start * 8 <= 4096 * 8 then rows - start * 8 else 4096 * 8
    ensures rows % 8 != 0 ==> blockRows % 8 == if end == ByteLen(rows) then rows % 8 else 0
    ensures rows % 8 == 0 ==> blockRows % 8 == 0
  {
    var q, r := rows / 8, rows % 8;
    assert rows == 8 * q + r && ByteLen(rows) == q + if r > 0 then 1 else 0;
    if end == ByteLen(rows) {
      assert blockRows == 8 * (q - start) + r;
    } else {
      assert blockRows == 32768;
    }
  }

  /** `non_null_rank`: a checkpoint, the whole bytes after it, and the masked last byte give the naive count. */
  method NonNullRank(presence: bytes, nulls: bytes, checkpoints: seq<nat>, row: nat) returns (rank: nat)
    requires |presence| == |nulls| && row < 8 * |presence| && Checkpointed(presence, nulls, checkpoints)
    ensures rank == Rank(presence, nulls, row)
  {
    hide Rank, Ones;
    var byteCount := row / 8;
    var block := byteCount / 4096;
    var start := block * 4096;
    rank := checkpoints[block];
    if byteCount != start {
      var whole := CountOnes(presence, nulls, start, byteCount);
      rank := rank + whole;
    }
    var bit := row % 8;
    if bit != 0 {
      RankInByte(presence, nulls, byteCount, bit);
      rank := rank + Ones(presence[byteCount], nulls[byteCount], bit);
    }
  }
}
