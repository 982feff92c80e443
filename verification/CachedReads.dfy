/** Range reads through the shared chunk cache (`encryption.rs`): every chunk is looked up first, decrypted
    and offered to the cache on a miss, while other readers use the same cache in between. */
module CachedReads {
  import opened Wrappers
  import opened Bytes
  import opened Envelope
  import opened RandomAccess
  import C = ChunkCache

  /** `source` knows the chunks of this file under its cache id. */
  ghost predicate Holds(source: C.Key -> bytes, id: nat, a: Aead, l: Layout, file: bytes)
    requires l.info.chunkSize > 0 && Verified(a, l, file).Ok?
  {
    forall i :: 0 <= i < |Verified(a, l, file).value| ==> source((id, i)) == Verified(a, l, file).value[i]
  }

  /** What the other readers do inserts decrypted chunks only. */
  ghost predicate Decrypting(ops: seq<C.Op>, source: C.Key -> bytes) {
    forall i :: 0 <= i < |ops| && ops[i].Insert? ==> ops[i].content == source(ops[i].key)
  }

  /** Storing a decrypted chunk is one step of such a run. */
  lemma {:induction false} StoreFaithful(c: C.Cache, key: C.Key, content: bytes, pressure: bool, source: C.Key -> bytes)
    requires C.Faithful(c, source) && content == source(key)
    ensures C.Faithful(C.TryInsert(c, key, content, true, pressure), source)
  {
    hide C.TryInsert, C.Faithful;
    var ops := [C.Insert(key, content, true, pressure)];
    C.HitsAgree(c, ops, source, key);
    C.RunOne(c, ops[0]);
  }

  /** One chunk: the cached content, or the decrypted one, which the cache is then offered. Other readers may use
      the cache while the chunk is decrypted, and may even insert it first. An insertion the memory admission
      refuses fails the read. */
  method EncryptedChunk(
    a: Aead, l: Layout, file: bytes, id: nat, index: nat, cache: C.Cache, meanwhile: seq<C.Op>, admitted: bool,
    pressure: bool, ghost source: C.Key -> bytes)
    returns (r: Result<bytes>, next: C.Cache)
    requires Lawful(a) && l.info.chunkSize > 0 && Verified(a, l, file).Ok? && index < ChunkCount(l)
    requires C.Faithful(cache, source) && Holds(source, id, a, l, file) && Decrypting(meanwhile, source)
    ensures C.Faithful(next, source)
    ensures r.Ok? ==> r == ChunkAt(a, l, file, index)
    ensures r.Err? <==>
      (id, index) !in cache.chunks && (id, index) !in C.Run(cache, meanwhile).chunks && !admitted
  {
    hide ChunkAt, ChunkCount, PlainLength, Verified, Lawful, C.TryInsert, C.Run;
    ChunkIsSlice(a, l, file, index);
    var key: C.Key := (id, index);
    var (hit, looked) := C.Get(cache, key);
    if hit.Some? {
      return Ok(hit.value), looked;
    }
    var chunk := ChunkAt(a, l, file, index);
    C.HitsAgree(looked, meanwhile, source, key);
    var met := C.Run(looked, meanwhile);
    if key !in met.chunks && !admitted {
      return Err, met;
    }
    StoreFaithful(met, key, chunk.value, pressure, source);
    next := C.TryInsert(met, key, chunk.value, true, pressure);
    return Ok(chunk.value), next;
  }

  /** Any range reads as that slice of the plaintext, whatever the cache holds and whatever other readers do to
      it between two chunks and while one is decrypted; only a refused admission fails a range inside the file. */
  method ReadRangeCached(
    a: Aead, l: Layout, file: bytes, id: nat, from: nat, to: nat, start: C.Cache, others: nat -> seq<C.Op>,
    meanwhile: nat -> seq<C.Op>, admitted: nat -> bool, pressure: nat -> bool, ghost source: C.Key -> bytes)
    returns (r: Result<bytes>, cache: C.Cache)
    requires Lawful(a) && l.info.chunkSize > 0 && Verified(a, l, file).Ok?
    requires C.Faithful(start, source) && Holds(source, id, a, l, file)
    requires forall i :: Decrypting(others(i), source) && Decrypting(meanwhile(i), source)
    ensures |Plaintext(a, l, file)| == l.info.plainLen && C.Faithful(cache, source)
    ensures r.Ok? ==> from <= to <= l.info.plainLen && r.value == Plaintext(a, l, file)[from..to]
    ensures from <= to <= l.info.plainLen && (forall i :: admitted(i)) ==> r.Ok?
  {
    hide ChunkAt, ChunkCount, PlainLength, Verified, Lawful, Plaintext, CopiedPart, Edge, ChunkOf, C.Run, C.Faithful,
      Holds;
    PlaintextLength(a, l, file);
    ghost var plaintext := Plaintext(a, l, file);
    cache := start;
    if from > to || to > l.info.plainLen {
      return Err, cache;
    }
    if from == to {
      assert plaintext[from..to] == [];
      return Ok([]), cache;
    }
    var first, last := ChunkOf(l, from), ChunkOf(l, to - 1);
    ChunksInOrder(l, from, to - 1, first, last);
    var output: bytes := [];
    ghost var done := from;
    for index := first to last + 1
      invariant C.Faithful(cache, source)
      invariant done == if index == first then from else if to < Edge(l, index) then to else Edge(l, index)
      invariant from <= done <= to && output == plaintext[from..done]
    {
      RangeChunk(l, from, to, first, last, index);
      ChunkIsSlice(a, l, file, index);
      assert Decrypting(others(index), source) && Decrypting(meanwhile(index), source);
      C.HitsAgree(cache, others(index), source, (id, index));
      cache := C.Run(cache, others(index));
      var chunk;
      chunk, cache := EncryptedChunk(
        a, l, file, id, index, cache, meanwhile(index), admitted(index), pressure(index), source);
      if chunk.Err? {
        return Err, cache;
      }
      var part := CopiedPart(chunk.value, Edge(l, index), from, to);
      ghost var next := if to < Edge(l, index + 1) then to else Edge(l, index + 1);
      PartIsSlice(plaintext, chunk.value, Edge(l, index), from, to, done, next);
      output := output + part.value;
      done := next;
    }
    return Ok(output), cache;
  }
}
