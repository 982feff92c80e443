/** Reading a verified envelope piece by piece (`encryption.rs`): arbitrary
    ranges and the sequential reader agree with the whole plaintext. */
module RandomAccess {
  import opened Wrappers
  import opened Bytes
  import opened Envelope

  /** The plaintext of an accepted file. */
  function Plaintext(a: Aead, l: Layout, file: bytes): bytes
    requires l.info.chunkSize > 0 && Verified(a, l, file).Ok?
  {
    Flat(Verified(a, l, file).value)
  }

  /** Where chunk `i` starts in the plaintext. */
  function Edge(l: Layout, i: nat): nat {
    i * l.info.chunkSize
  }

  /** The chunk that holds a position. */
  function ChunkOf(l: Layout, position: nat): (i: nat)
    requires l.info.chunkSize > 0
    ensures Edge(l, i) <= position < Edge(l, i) + l.info.chunkSize
  {
    position / l.info.chunkSize
  }

  /** `part` is what the plaintext holds at `from`. */
  predicate SliceAt(plaintext: bytes, part: bytes, from: nat) {
    from + |part| <= |plaintext| && part == plaintext[from..from + |part|]
  }

  /** Chunk `i` is the slice of the plaintext its index says. */
  lemma {:induction false} ChunkIsSlice(a: Aead, l: Layout, file: bytes, i: nat)
    requires Lawful(a) && l.info.chunkSize > 0 && Verified(a, l, file).Ok? && i < ChunkCount(l)
    ensures ChunkAt(a, l, file, i) == Ok(Verified(a, l, file).value[i])
    ensures |Verified(a, l, file).value[i]| == PlainLength(l, i) > 0
    ensures SliceAt(Plaintext(a, l, file), Verified(a, l, file).value[i], Edge(l, i))
  {
    hide ChunkAt, ChunkCount, PlainLength, Lawful, ChunksFrom, Flat, Start;
    var chunks := Verified(a, l, file).value;
    ChunkListAt(a, l, file, 0, i);
    ChunkFacts(a, l, file, i);
    CountMeans(l, i);
    ChunkOffset(a, l, file, i);
    FlatSlice(chunks, i);
    StartMonotone(chunks, i + 1, |chunks|);
  }

  /** Chunk `i` starts at `i` whole chunks into the plaintext. */
  lemma {:induction false} ChunkOffset(a: Aead, l: Layout, file: bytes, i: nat)
    requires Lawful(a) && l.info.chunkSize > 0 && Verified(a, l, file).Ok? && i < ChunkCount(l)
    ensures Start(Verified(a, l, file).value, i) == i * l.info.chunkSize
  {
    hide ChunkAt, ChunkCount, PlainLength, Lawful, ChunksFrom;
    var chunks := Verified(a, l, file).value;
    if i == 0 {
      StartTotal(chunks);
    } else {
      ChunkOffset(a, l, file, i - 1);
      ChunkListAt(a, l, file, 0, i - 1);
      ChunkFacts(a, l, file, i - 1);
      CountMeans(l, i - 1);
      FlatSlice(chunks, i - 1);
      assert i * l.info.chunkSize == (i - 1) * l.info.chunkSize + l.info.chunkSize;
    }
  }

  // ----- Ranges -----

  /** The part of chunk `index` that lies in the range. */
  function CopiedPart(chunk: bytes, chunkStart: nat, from: nat, to: nat): Result<bytes>
    requires chunkStart <= to
  {
    var copyStart := if from > chunkStart then from - chunkStart else 0;
    var copyEnd := (if to < chunkStart + |chunk| then to else chunkStart + |chunk|) - chunkStart;
    if copyStart <= copyEnd <= |chunk| then Ok(chunk[copyStart..copyEnd]) else Err
  }

  /** Any range of a verified file reads as that slice of the plaintext; a range outside it is refused. */
  method ReadRange(a: Aead, l: Layout, file: bytes, from: nat, to: nat) returns (r: Result<bytes>)
    requires Lawful(a) && l.info.chunkSize > 0 && Verified(a, l, file).Ok?
    ensures |Plaintext(a, l, file)| == l.info.plainLen
    ensures r == if from <= to <= l.info.plainLen then Ok(Plaintext(a, l, file)[from..to]) else Err
  {
    hide ChunkAt, ChunkCount, PlainLength, Verified, Lawful, Plaintext, CopiedPart, Edge, ChunkOf;
    PlaintextLength(a, l, file);
    ghost var plaintext := Plaintext(a, l, file);
    if from > to || to > l.info.plainLen {
      return Err;
    }
    if from == to {
      assert plaintext[from..to] == [];
      return Ok([]);
    }
    var first, last := ChunkOf(l, from), ChunkOf(l, to - 1);
    ChunksInOrder(l, from, to - 1, first, last);
    var output: bytes := [];
    ghost var done := from;
    for index := first to last + 1
      invariant done == if index == first then from else if to < Edge(l, index) then to else Edge(l, index)
      invariant from <= done <= to && output == plaintext[from..done]
    {
      RangeChunk(l, from, to, first, last, index);
      ChunkIsSlice(a, l, file, index);
      var chunk := ChunkAt(a, l, file, index);
      var part := CopiedPart(chunk.value, Edge(l, index), from, to);
      ghost var next := if to < Edge(l, index + 1) then to else Edge(l, index + 1);
      PartIsSlice(plaintext, chunk.value, Edge(l, index), from, to, done, next);
      output := output + part.value;
      done := next;
    }
    return Ok(output);
  }

  lemma {:induction false} PlaintextLength(a: Aead, l: Layout, file: bytes)
    requires Lawful(a) && l.info.chunkSize > 0 && Verified(a, l, file).Ok?
    ensures |Plaintext(a, l, file)| == l.info.plainLen
  {
    hide ChunksFrom, Lawful;
    CountMeans(l, 0);
    if ChunkCount(l) == 0 {
      assert Verified(a, l, file).value == [];
    } else {
      ChunksLength(a, l, file, 0);
    }
  }

  lemma {:induction false} ChunksInOrder(l: Layout, from: nat, to: nat, first: nat, last: nat)
    requires l.info.chunkSize > 0 && from <= to
    requires Edge(l, first) <= from && to < Edge(l, last) + l.info.chunkSize
    ensures first <= last && to < Edge(l, last + 1) == Edge(l, last) + l.info.chunkSize
  {
    var size := l.info.chunkSize;
    assert (last + 1) * size == last * size + size;
    if first > last {
      MulMonotone(last + 1, first, size);
    }
  }

  lemma {:induction false} RangeChunk(l: Layout, from: nat, to: nat, first: nat, last: nat, index: nat)
    requires l.info.chunkSize > 0 && from < to <= l.info.plainLen && first <= index <= last
    requires Edge(l, first) <= from < Edge(l, first) + l.info.chunkSize && Edge(l, last) < to
    ensures index < ChunkCount(l) && Edge(l, index) < to
    ensures from < Edge(l, index + 1) == Edge(l, index) + l.info.chunkSize
    ensures index > first ==> from < Edge(l, index)
    ensures index == first ==> Edge(l, index) <= from
    ensures PlainLength(l, index) ==
      if Edge(l, index + 1) <= l.info.plainLen then l.info.chunkSize else l.info.plainLen - Edge(l, index)
  {
    hide ChunkCount;
    var size := l.info.chunkSize;
    MulMonotone(index, last, size);
    MulMonotone(first, index, size);
    assert (index + 1) * size == index * size + size;
    if index > first {
      MulMonotone(first + 1, index, size);
      assert (first + 1) * size == first * size + size;
    }
    CountMeans(l, index);
  }

  lemma {:induction false} PartIsSlice(
    plaintext: bytes, chunk: bytes, start: nat, from: nat, to: nat, done: nat, next: nat)
    requires SliceAt(plaintext, chunk, start)
    requires start <= to <= |plaintext| && from <= done < next <= to
    requires done == if from > start then from else start
    requires next == if to < start + |chunk| then to else start + |chunk|
    ensures CopiedPart(chunk, start, from, to) == Ok(plaintext[done..next])
    ensures plaintext[from..done] + plaintext[done..next] == plaintext[from..next]
  {
    SubSlice(plaintext, start, start + |chunk|, done - start, next - start);
  }

  // ----- The sequential reader -----

  /** Plaintext covered by the first `n` chunks, and where their frames end. */
  function Covered(l: Layout, n: nat): nat {
    if n == 0 then 0 else (n - 1) * l.info.chunkSize + PlainLength(l, n - 1)
  }

  function FramesEnd(l: Layout, n: nat): nat {
    if n == 0 then l.bodyOffset else ChunkStart(l, n - 1) + 4 + PlainLength(l, n - 1) + 16
  }

  class ChunkReader {
    const a: Aead
    const l: Layout
    const file: bytes
    var nextChunk: nat
    var encodedEnd: nat
    var plaintextRead: nat
    var chunk: bytes
    var chunkOffset: nat

    /** What is buffered is what follows the bytes already read, up to the end of the loaded chunks. */
    ghost predicate Valid()
      reads this
    {
      && Lawful(a) && l.info.chunkSize > 0 && Verified(a, l, file).Ok?
      && nextChunk <= ChunkCount(l)
      && chunkOffset <= |chunk|
      && encodedEnd == FramesEnd(l, nextChunk)
      && plaintextRead <= Covered(l, nextChunk) <= |Plaintext(a, l, file)| == l.info.plainLen
      && chunk[chunkOffset..] == Plaintext(a, l, file)[plaintextRead..Covered(l, nextChunk)]
    }

    constructor (a: Aead, l: Layout, file: bytes)
      requires Lawful(a) && l.info.chunkSize > 0 && Verified(a, l, file).Ok?
      ensures Valid() && plaintextRead == 0
      ensures this.a == a && this.l == l && this.file == file
    {
      PlaintextLength(a, l, file);
      this.a, this.l, this.file := a, l, file;
      nextChunk, encodedEnd, plaintextRead, chunk, chunkOffset := 0, l.bodyOffset, 0, [], 0;
    }

    /** Load the next chunk; false at the end, where both lengths must agree. */
    method LoadChunk() returns (r: Result<bool>)
      requires Valid() && chunkOffset == |chunk|
      modifies this
      ensures Valid() && plaintextRead == old(plaintextRead)
      ensures r == Ok(plaintextRead < l.info.plainLen)
      ensures r.value ==> chunkOffset < |chunk|
    {
      hide Lawful, ChunkCount, PlainLength, Verified, ChunkAt, ChunkStart, Plaintext, Edge, Covered;
      assert plaintextRead == Covered(l, nextChunk);
      chunk, chunkOffset := [], 0;
      if nextChunk == ChunkCount(l) {
        EndReached(a, l, file);
        if plaintextRead != l.info.plainLen || encodedEnd != |file| {
          return Err;
        }
        return Ok(false);
      }
      ChunkIsSlice(a, l, file, nextChunk);
      PlaintextLength(a, l, file);
      CoveredStep(l, nextChunk);
      chunk := ChunkAt(a, l, file, nextChunk).value;
      encodedEnd := ChunkStart(l, nextChunk) + 4 + PlainLength(l, nextChunk) + 16;
      nextChunk := nextChunk + 1;
      return Ok(true);
    }

    /** At most `n` bytes: the next ones of the plaintext, and none only at its end. */
    method Read(n: nat) returns (r: Result<bytes>)
      requires Valid()
      modifies this
      ensures Valid() && r.Ok?
      ensures plaintextRead == old(plaintextRead) + |r.value| <= l.info.plainLen
      ensures r.value == Plaintext(a, l, file)[old(plaintextRead)..plaintextRead]
      ensures |r.value| <= n && (|r.value| == 0 <==> n == 0 || plaintextRead == l.info.plainLen == old(plaintextRead))
    {
      hide Lawful, ChunkCount, PlainLength, Verified, ChunkStart, Covered, Plaintext;
      if n == 0 {
        assert Plaintext(a, l, file)[plaintextRead..plaintextRead] == [];
        return Ok([]);
      }
      if chunkOffset == |chunk| {
        var loaded := LoadChunk();
        if !loaded.value {
          assert Plaintext(a, l, file)[plaintextRead..plaintextRead] == [];
          return Ok([]);
        }
      }
      var available := chunk[chunkOffset..];
      var copied := if |available| < n then |available| else n;
      ghost var end := Covered(l, nextChunk);
      SubSlice(Plaintext(a, l, file), plaintextRead, end, 0, copied);
      SubSlice(Plaintext(a, l, file), plaintextRead, end, copied, |available|);
      assert chunk[chunkOffset + copied..] == available[copied..|available|];
      chunkOffset := chunkOffset + copied;
      plaintextRead := plaintextRead + copied;
      return Ok(available[0..copied]);
    }

    /** Reading to the end, however large the buffer, yields the whole plaintext. */
    method ReadAll(buffer: nat) returns (r: bytes)
      requires Valid() && plaintextRead == 0 && buffer > 0
      modifies this
      ensures r == Plaintext(a, l, file)
    {
      hide Lawful, ChunkCount, PlainLength, Verified, Covered, Plaintext;
      r := [];
      var more := true;
      while more
        invariant Valid() && r == Plaintext(a, l, file)[..plaintextRead]
        invariant !more ==> plaintextRead == l.info.plainLen
        decreases more, l.info.plainLen - plaintextRead
      {
        var part := Read(buffer);
        more := part.value != [];
        r := r + part.value;
      }
    }
  }

  lemma {:induction false} CoveredStep(l: Layout, n: nat)
    requires l.info.chunkSize > 0 && n < ChunkCount(l)
    ensures Covered(l, n) == Edge(l, n) && Covered(l, n + 1) == Edge(l, n) + PlainLength(l, n)
  {
    hide ChunkCount;
    if n > 0 {
      CountMeans(l, n - 1);
      assert n * l.info.chunkSize == (n - 1) * l.info.chunkSize + l.info.chunkSize;
    }
  }

  /** With every chunk loaded, plaintext and file are used up. */
  lemma {:induction false} EndReached(a: Aead, l: Layout, file: bytes)
    requires l.info.chunkSize > 0 && Verified(a, l, file).Ok?
    ensures Covered(l, ChunkCount(l)) == l.info.plainLen && FramesEnd(l, ChunkCount(l)) == |file|
  {
    hide ChunksFrom;
    var n := ChunkCount(l);
    CountMeans(l, 0);
    if n > 0 {
      CountMeans(l, n - 1);
    }
  }
}
