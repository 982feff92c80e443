/** The encrypted envelope of `encryption.rs`: a header with a wrapped data key,
    then a body of length-prefixed sealed chunks. AES-256-GCM (NIST SP 800-38D)
    is a parameter with three laws. */
module Envelope {
  import opened Wrappers
  import opened Bytes

  const FIXED_HEADER_BYTES: nat := 54
  const MAX_CHUNK_SIZE: nat := 4194304
  const MAX_KEY_ID_BYTES: nat := 128
  const U32_MAX: nat := 0xFFFF_FFFF

  /** `seal` and `open` take key, nonce, associated data and text. */
  datatype Aead = Aead(seal: (bytes, bytes, bytes, bytes) -> bytes, open: (bytes, bytes, bytes, bytes) -> Option<bytes>)

  /** Opening undoes sealing, and a text is sixteen bytes shorter than what it was opened from. */
  ghost predicate Lawful(a: Aead) {
    && (forall k, n, d, p {:trigger a.seal(k, n, d, p)} ::
          |a.seal(k, n, d, p)| == |p| + 16 && a.open(k, n, d, a.seal(k, n, d, p)) == Some(p))
    && (forall k, n, d, c {:trigger a.open(k, n, d, c)} ::
          a.open(k, n, d, c).Some? ==> |c| == |a.open(k, n, d, c).value| + 16)
  }

  /** The laws can be met. */
  lemma {:induction false} LawfulAead() returns (a: Aead)
    ensures Lawful(a)
  {
    a := Aead((k, n, d, p) => p + Zeros(16), (k, n, d, c) => if |c| >= 16 then Some(c[..|c| - 16]) else None);
    forall k, n, d, p: bytes ensures |a.seal(k, n, d, p)| == |p| + 16
      && a.open(k, n, d, a.seal(k, n, d, p)) == Some(p) {
      assert (p + Zeros(16))[..|p|] == p;
    }
  }

  datatype Keyring = Keyring(active: bytes, keys: map<bytes, bytes>) {

    /** What `load` accepts: the active key is present, keys are 32 bytes, ids non-empty, bounded and of one length. */
    predicate Valid() {
      && active in keys
      && forall id :: id in keys ==> |keys[id]| == 32 && |id| == |active| && 0 < |id| <= MAX_KEY_ID_BYTES
    }
  }

  datatype Info = Info(fileType: byte, keyId: bytes, uuid: bytes, plainLen: u64, chunkSize: u32)

  datatype Layout = Layout(info: Info, bodyOffset: nat, dek: bytes)

  const MAGIC: bytes := [67, 72, 73, 82, 69, 78, 67, 49]

  predicate FileTypeKnown(t: byte) {
    1 <= t <= 6
  }

  // ----- Header -----

  /** Everything before the wrapped data key; it is also the associated data of the wrapping. */
  function AadHeader(info: Info, nonce: bytes): bytes
    requires |info.keyId| < U16_LIMIT
  {
    MAGIC + [1, info.fileType] + Put16(|info.keyId|) + info.uuid + Put64(info.plainLen) + Put32(info.chunkSize)
    + nonce + Put16(48) + info.keyId
  }

  datatype Parsed = Parsed(info: Info, nonce: bytes, aad: bytes, wrapped: bytes, bodyOffset: nat)

  /** An id that is not UTF-8 is refused here by the source; no keyring holds such an id, so the key lookup that
      follows refuses it too. */
  function ParseHeader(s: bytes): (r: Result<Parsed>)
    ensures r.Ok? ==>
      && r.value.bodyOffset <= |s| && |r.value.wrapped| == 48
      && FIXED_HEADER_BYTES < r.value.bodyOffset
      && 0 < r.value.info.chunkSize <= MAX_CHUNK_SIZE
      && |r.value.info.uuid| == 16
  {
    if |s| < FIXED_HEADER_BYTES || s[..8] != MAGIC || s[8] != 1 || !FileTypeKnown(s[9]) then Err
    else
      var keyLen := Get16(s, 10);
      var chunkSize := Get32(s, 36);
      :- Need(0 < keyLen <= MAX_KEY_ID_BYTES && 0 < chunkSize <= MAX_CHUNK_SIZE && Get16(s, 52) == 48);
      var keyEnd := FIXED_HEADER_BYTES + keyLen;
      :- Need(keyEnd + 48 <= |s|);
      Ok(Parsed(Info(s[9], s[FIXED_HEADER_BYTES..keyEnd], s[12..28], Get64(s, 28), chunkSize),
        s[40..52], s[..keyEnd], s[keyEnd..keyEnd + 48], keyEnd + 48))
  }

  function OpenLayout(k: Keyring, a: Aead, s: bytes): (r: Result<Layout>)
    ensures r.Ok? ==> r.value.bodyOffset <= |s| && 0 < r.value.info.chunkSize <= MAX_CHUNK_SIZE
  {
    var parsed :- ParseHeader(s);
    :- Need(parsed.info.keyId in k.keys);
    var dek := a.open(k.keys[parsed.info.keyId], parsed.nonce, parsed.aad, parsed.wrapped);
    :- Need(dek.Some? && |dek.value| == 32);
    Ok(Layout(parsed.info, parsed.bodyOffset, dek.value))
  }

  // ----- Chunks -----

  function ChunkNonce(uuid: bytes, index: u32): bytes
    requires |uuid| >= 8
  {
    uuid[..8] + [index / 0x100_0000, index / 0x1_0000 % 256, index / 0x100 % 256, index % 256]
  }

  function ChunkAad(info: Info, index: u32): bytes {
    MAGIC + [1, info.fileType] + info.uuid + Put64(info.plainLen) + Put32(info.chunkSize) + Put32(index)
  }

  function SealChunk(a: Aead, info: Info, dek: bytes, index: u32, plain: bytes): bytes
    requires |info.uuid| == 16
  {
    a.seal(dek, ChunkNonce(info.uuid, index), ChunkAad(info, index), plain)
  }

  function OpenChunk(a: Aead, l: Layout, index: u32, cipher: bytes): Option<bytes> {
    if |l.info.uuid| != 16 then None
    else a.open(l.dek, ChunkNonce(l.info.uuid, index), ChunkAad(l.info, index), cipher)
  }

  function ChunkCount(l: Layout): nat
    requires l.info.chunkSize > 0
  {
    (l.info.plainLen + l.info.chunkSize - 1) / l.info.chunkSize
  }

  /** Length of plaintext chunk `i`: whole chunks, and what is left in the last one. */
  function PlainLength(l: Layout, i: nat): nat {
    var left := l.info.plainLen - i * l.info.chunkSize;
    if left <= 0 then 0 else if left < l.info.chunkSize then left else l.info.chunkSize
  }

  function ChunkStart(l: Layout, i: nat): nat {
    l.bodyOffset + i * (l.info.chunkSize + 20)
  }

  function EncryptedChunkRange(l: Layout, i: nat): Result<(nat, nat)>
    requires l.info.chunkSize > 0
  {
    if i >= ChunkCount(l) || i > U32_MAX then Err
    else Ok((ChunkStart(l, i), ChunkStart(l, i) + 4 + PlainLength(l, i) + 16))
  }

  function DecryptChunkFrame(a: Aead, l: Layout, i: nat, frame: bytes): Result<bytes> {
    if |frame| < 4 || i > U32_MAX then Err
    else
      var n := Get32(frame, 0);
      :- Need(16 <= n <= l.info.chunkSize + 16 && |frame| == n + 4);
      match OpenChunk(a, l, i, frame[4..])
      case Some(p) => Ok(p)
      case None => Err
  }

  /** Chunk `i` read at its computed place. */
  function ChunkAt(a: Aead, l: Layout, file: bytes, i: nat): Result<bytes>
    requires l.info.chunkSize > 0
  {
    var (start, end) :- EncryptedChunkRange(l, i);
    :- Need(start <= end <= |file|);
    DecryptChunkFrame(a, l, i, file[start..end])
  }

  /** All chunks from `i` on. */
  function ChunksFrom(a: Aead, l: Layout, file: bytes, i: nat): (r: Result<seq<bytes>>)
    requires l.info.chunkSize > 0 && i <= ChunkCount(l)
    ensures r.Ok? ==> |r.value| == ChunkCount(l) - i
    decreases ChunkCount(l) - i
  {
    if i == ChunkCount(l) then Ok([])
    else
      var chunk :- ChunkAt(a, l, file, i);
      var rest :- ChunksFrom(a, l, file, i + 1);
      Ok([chunk] + rest)
  }

  /** Where the last frame ends. */
  function BodyEnd(l: Layout): nat
    requires l.info.chunkSize > 0
  {
    var n := ChunkCount(l);
    if n == 0 then l.bodyOffset else ChunkStart(l, n - 1) + 4 + PlainLength(l, n - 1) + 16
  }

  /** The chunks of a file that `verify_file` accepts. */
  function Verified(a: Aead, l: Layout, file: bytes): (r: Result<seq<bytes>>)
    requires l.info.chunkSize > 0
    ensures r.Ok? ==> |r.value| == ChunkCount(l)
  {
    var chunks :- ChunksFrom(a, l, file, 0);
    :- Need(BodyEnd(l) == |file|);
    Ok(chunks)
  }

  /** The verification loop, frame after frame. */
  method VerifyFile(k: Keyring, a: Aead, file: bytes) returns (r: Result<Info>)
    ensures r.Ok? <==> OpenLayout(k, a, file).Ok? && Verified(a, OpenLayout(k, a, file).value, file).Ok?
    ensures r.Ok? ==> r.value == OpenLayout(k, a, file).value.info
  {
    hide ChunkAt, ChunkCount, OpenLayout, PlainLength, ChunkStart;
    var layout := OpenLayout(k, a, file);
    if layout.Err? {
      return Err;
    }
    var l := layout.value;
    var end := l.bodyOffset;
    for i := 0 to ChunkCount(l)
      invariant end == if i == 0 then l.bodyOffset else ChunkStart(l, i - 1) + 4 + PlainLength(l, i - 1) + 16
      invariant ChunksFrom(a, l, file, 0).Ok? <==> ChunksFrom(a, l, file, i).Ok?
    {
      var plaintext := ChunkAt(a, l, file, i);
      if plaintext.Err? {
        return Err;
      }
      end := ChunkStart(l, i) + 4 + PlainLength(l, i) + 16;
    }
    if end != |file| {
      return Err;
    }
    return Ok(l.info);
  }

  // ----- Whole-file decryption -----

  /** Frame by frame from `offset`, with `room` bytes of plaintext still expected. */
  function DecryptFrom(a: Aead, l: Layout, file: bytes, offset: nat, index: nat, room: int): Result<bytes>
    decreases |file| - offset
  {
    if offset >= |file| then Ok([])
    else if offset + 4 > |file| || index > U32_MAX then Err
    else
      var n := Get32(file, offset);
      var end := offset + 4 + n;
      :- Need(16 <= n <= l.info.chunkSize + 16 && end <= |file|);
      match OpenChunk(a, l, index, file[offset + 4..end])
      case None => Err
      case Some(chunk) =>
        :- Need(|chunk| <= room && index + 1 <= U32_MAX);
        var rest :- DecryptFrom(a, l, file, end, index + 1, room - |chunk|);
        Ok(chunk + rest)
  }

  function DecryptBytes(k: Keyring, a: Aead, file: bytes): Result<(Info, bytes)> {
    var l :- OpenLayout(k, a, file);
    var plaintext :- DecryptFrom(a, l, file, l.bodyOffset, 0, l.info.plainLen);
    :- Need(|plaintext| == l.info.plainLen);
    Ok((l.info, plaintext))
  }

  /** The decryption loop. */
  method DecryptLoop(a: Aead, l: Layout, file: bytes) returns (r: Result<bytes>)
    ensures r == DecryptFrom(a, l, file, l.bodyOffset, 0, l.info.plainLen)
  {
    hide OpenChunk, FromLE;
    var plaintext: bytes := [];
    var offset := l.bodyOffset;
    var index: nat := 0;
    ghost var whole := DecryptFrom(a, l, file, l.bodyOffset, 0, l.info.plainLen);
    assert whole.Ok? ==> [] + whole.value == whole.value;
    while offset < |file|
      invariant var rest := DecryptFrom(a, l, file, offset, index, l.info.plainLen - |plaintext|);
        whole == if rest.Ok? then Ok(plaintext + rest.value) else Err
      decreases |file| - offset
    {
      if offset + 4 > |file| || index > U32_MAX {
        return Err;
      }
      var n := Get32(file, offset);
      var end := offset + 4 + n;
      if !(16 <= n <= l.info.chunkSize + 16 && end <= |file|) {
        return Err;
      }
      var chunk := OpenChunk(a, l, index, file[offset + 4..end]);
      if chunk.None? || |chunk.value| > l.info.plainLen - |plaintext| || index + 1 > U32_MAX {
        return Err;
      }
      ghost var rest := DecryptFrom(a, l, file, end, index + 1, l.info.plainLen - |plaintext| - |chunk.value|);
      assert rest.Ok? ==> plaintext + (chunk.value + rest.value) == (plaintext + chunk.value) + rest.value;
      plaintext := plaintext + chunk.value;
      offset := end;
      index := index + 1;
    }
    assert plaintext + [] == plaintext;
    return Ok(plaintext);
  }

  // ----- Frames tile the body -----

  /** What the chunk count means: chunks before the last are whole, and the last holds the rest. */
  lemma {:induction false} CountMeans(l: Layout, i: nat)
    requires l.info.chunkSize > 0
    ensures i < ChunkCount(l) <==> i * l.info.chunkSize < l.info.plainLen
    ensures i + 1 < ChunkCount(l) ==> PlainLength(l, i) == l.info.chunkSize
    ensures i < ChunkCount(l) ==> 0 < PlainLength(l, i) <= l.info.chunkSize
    ensures i + 1 == ChunkCount(l) ==> i * l.info.chunkSize + PlainLength(l, i) == l.info.plainLen
  {
    CeilMeans(l.info.plainLen, l.info.chunkSize, i);
    CeilMeans(l.info.plainLen, l.info.chunkSize, i + 1);
    assert (i + 1) * l.info.chunkSize == i * l.info.chunkSize + l.info.chunkSize;
  }

  lemma {:induction false} CeilMeans(n: nat, d: nat, i: nat)
    requires d > 0
    ensures i < (n + d - 1) / d <==> i * d < n
  {
    var q, r := (n + d - 1) / d, (n + d - 1) % d;
    assert n + d - 1 == q * d + r && 0 <= r < d;
    if i < q {
      MulMonotone(i + 1, q, d);
      assert (i + 1) * d == i * d + d;
    } else {
      MulMonotone(q, i, d);
    }
  }

  /** The frames of consecutive chunks touch: each starts where the one before it ends. */
  lemma {:induction false} FramesTile(l: Layout, i: nat)
    requires l.info.chunkSize > 0
    ensures ChunkStart(l, 0) == l.bodyOffset
    ensures i + 1 < ChunkCount(l) ==> ChunkStart(l, i) + 4 + PlainLength(l, i) + 16 == ChunkStart(l, i + 1)
    ensures i + 1 == ChunkCount(l) ==> ChunkStart(l, i) + 4 + PlainLength(l, i) + 16 == BodyEnd(l)
  {
    CountMeans(l, i);
    var stride := l.info.chunkSize + 20;
    assert (i + 1) * stride == i * stride + stride;
  }

  // ----- The chunks of an accepted file -----

  lemma {:induction false} ChunkFacts(a: Aead, l: Layout, file: bytes, i: nat)
    requires Lawful(a) && l.info.chunkSize > 0 && ChunkAt(a, l, file, i).Ok?
    ensures i < ChunkCount(l) && i <= U32_MAX
    ensures |ChunkAt(a, l, file, i).value| == PlainLength(l, i)
    ensures var start := ChunkStart(l, i);
      var n := PlainLength(l, i) + 16;
      && start + 4 + n <= |file|
      && Get32(file, start) == n
      && OpenChunk(a, l, i, file[start + 4..start + 4 + n]) == Some(ChunkAt(a, l, file, i).value)
  {
    hide FromLE, ChunkCount, PlainLength;
    var start, n := ChunkStart(l, i), PlainLength(l, i) + 16;
    var frame := file[start..start + 4 + n];
    SubSlice(file, start, start + 4 + n, 0, 4);
    SubSlice(file, start, start + 4 + n, 4, 4 + n);
    assert frame[4..] == frame[4..4 + n];
  }

  lemma {:induction false} ChunkListAt(a: Aead, l: Layout, file: bytes, i: nat, k: nat)
    requires l.info.chunkSize > 0 && i <= k < ChunkCount(l) && ChunksFrom(a, l, file, i).Ok?
    ensures ChunkAt(a, l, file, k) == Ok(ChunksFrom(a, l, file, i).value[k - i])
    ensures ChunksFrom(a, l, file, k).Ok? && ChunksFrom(a, l, file, k).value == ChunksFrom(a, l, file, i).value[k - i..]
    decreases k - i
  {
    hide ChunkAt, ChunkCount;
    if i < k {
      ChunkListAt(a, l, file, i + 1, k);
    }
  }

  /** The plaintext of the chunks from `i` on has the length that is left. */
  lemma {:induction false} ChunksLength(a: Aead, l: Layout, file: bytes, i: nat)
    requires Lawful(a) && l.info.chunkSize > 0 && i < ChunkCount(l) && ChunksFrom(a, l, file, i).Ok?
    ensures |Flat(ChunksFrom(a, l, file, i).value)| == l.info.plainLen - i * l.info.chunkSize
    decreases ChunkCount(l) - i
  {
    hide ChunkAt, ChunkCount, PlainLength, Lawful;
    var chunks := ChunksFrom(a, l, file, i).value;
    ChunkFacts(a, l, file, i);
    CountMeans(l, i);
    if i + 1 < ChunkCount(l) {
      ChunksLength(a, l, file, i + 1);
      assert (i + 1) * l.info.chunkSize == i * l.info.chunkSize + l.info.chunkSize;
    } else {
      assert chunks[1..] == [];
    }
  }

  // ----- What verification accepts, decryption decrypts -----

  /** Reading on from chunk `i` gives the remaining plaintext, unless the chunk counter would pass its 32 bits. */
  lemma {:induction false} DecryptsOn(a: Aead, l: Layout, file: bytes, i: nat)
    requires Lawful(a) && l.info.chunkSize > 0 && i < ChunkCount(l)
    requires ChunksFrom(a, l, file, i).Ok? && BodyEnd(l) == |file|
    ensures DecryptFrom(a, l, file, ChunkStart(l, i), i, l.info.plainLen - i * l.info.chunkSize) ==
      if ChunkCount(l) <= U32_MAX then Ok(Flat(ChunksFrom(a, l, file, i).value)) else Err
    decreases ChunkCount(l) - i
  {
    hide ChunkAt, ChunkCount, PlainLength, OpenChunk, FromLE, ChunkStart, Lawful, BodyEnd;
    var chunks := ChunksFrom(a, l, file, i).value;
    var start, n := ChunkStart(l, i), PlainLength(l, i) + 16;
    ChunkFacts(a, l, file, i);
    CountMeans(l, i);
    FramesTile(l, i);
    if i + 1 < ChunkCount(l) {
      CountMeans(l, i + 1);
      assert (i + 1) * l.info.chunkSize == i * l.info.chunkSize + l.info.chunkSize;
      DecryptsOn(a, l, file, i + 1);
    } else {
      assert chunks[1..] == [] && Flat(chunks) == chunks[0] + [];
    }
  }

  /** Anything `verify_file` accepts is decrypted to the concatenation of its chunks, for every byte string
      and exactly when the file has at most 2^32 - 1 chunks. */
  lemma {:induction false} VerifiedDecrypts(k: Keyring, a: Aead, file: bytes)
    requires Lawful(a) && OpenLayout(k, a, file).Ok? && Verified(a, OpenLayout(k, a, file).value, file).Ok?
    ensures var l := OpenLayout(k, a, file).value;
      var plaintext := Flat(Verified(a, l, file).value);
      && |plaintext| == l.info.plainLen
      && DecryptBytes(k, a, file) == if ChunkCount(l) <= U32_MAX then Ok((l.info, plaintext)) else Err
  {
    hide ChunksFrom, ChunkCount, OpenLayout, DecryptFrom;
    var l := OpenLayout(k, a, file).value;
    CountMeans(l, 0);
    if ChunkCount(l) == 0 {
      EmptyFile(a, l, file);
    } else {
      ChunksLength(a, l, file, 0);
      DecryptsOn(a, l, file, 0);
      FramesTile(l, 0);
    }
  }

  lemma {:induction false} EmptyFile(a: Aead, l: Layout, file: bytes)
    requires l.info.chunkSize > 0 && ChunkCount(l) == 0 && BodyEnd(l) == |file|
    ensures ChunksFrom(a, l, file, 0) == Ok([]) && DecryptFrom(a, l, file, l.bodyOffset, 0, l.info.plainLen) == Ok([])
  {
  }

  // ----- The writer -----

  /** The plaintext cut into chunks. */
  function Pieces(plaintext: bytes, size: nat): (r: seq<bytes>)
    requires size > 0
    decreases |plaintext|
  {
    if plaintext == [] then []
    else if |plaintext| <= size then [plaintext]
    else [plaintext[..size]] + Pieces(plaintext[size..], size)
  }

  /** Length prefix and sealed chunk; the prefix keeps only 32 bits of the length. */
  function FrameOf(a: Aead, info: Info, dek: bytes, index: u32, plain: bytes): bytes
    requires |info.uuid| == 16
  {
    var cipher := SealChunk(a, info, dek, index, plain);
    Put32(|cipher| % U32_LIMIT) + cipher
  }

  function FramesFrom(a: Aead, info: Info, dek: bytes, pieces: seq<bytes>, i: nat): (s: bytes)
    requires |info.uuid| == 16 && i <= |pieces| <= U32_LIMIT
    decreases |pieces| - i
  {
    if i == |pieces| then [] else FrameOf(a, info, dek, i, pieces[i]) + FramesFrom(a, info, dek, pieces, i + 1)
  }

  /** The random choices of one encryption. */
  datatype Randomness = Randomness(dek: bytes, uuid: bytes, nonce: bytes) {
    predicate Valid() {
      |dek| == 32 && |uuid| == 16 && |nonce| == 12
    }
  }

  function HeaderBytes(k: Keyring, a: Aead, info: Info, rnd: Randomness): bytes
    requires |info.keyId| < U16_LIMIT && info.keyId in k.keys
  {
    var aad := AadHeader(info, rnd.nonce);
    aad + a.seal(k.keys[info.keyId], rnd.nonce, aad, rnd.dek)
  }

  function EncryptBytes(
    k: Keyring, a: Aead, fileType: byte, plaintext: bytes, chunkSize: nat, rnd: Randomness): Result<bytes>
    requires k.Valid() && rnd.Valid()
  {
    if chunkSize == 0 || chunkSize >= U32_LIMIT || |plaintext| >= U64_LIMIT then Err
    else
      var info := Info(fileType, k.active, rnd.uuid, |plaintext|, chunkSize);
      var pieces := Pieces(plaintext, chunkSize);
      :- Need(|pieces| <= U32_MAX);
      Ok(HeaderBytes(k, a, info, rnd) + FramesFrom(a, info, rnd.dek, pieces, 0))
  }

  // ----- Accepted by verification, whatever the plaintext -----

  lemma {:induction false} HeaderParses(info: Info, nonce: bytes, wrapped: bytes, rest: bytes)
    requires FileTypeKnown(info.fileType) && 0 < |info.keyId| <= MAX_KEY_ID_BYTES && |info.uuid| == 16 && |nonce| == 12
      && |wrapped| == 48
    requires 0 < info.chunkSize <= MAX_CHUNK_SIZE
    ensures var aad := AadHeader(info, nonce);
      ParseHeader(aad + wrapped + rest) == Ok(Parsed(info, nonce, aad, wrapped, |aad| + 48))
  {
    hide FromLE, LE;
    var aad := AadHeader(info, nonce);
    var s := aad + wrapped + rest;
    var keyEnd := 54 + |info.keyId|;
    HeaderFields(info, nonce, aad);
    assert s[..keyEnd] == aad;
    assert s[keyEnd..keyEnd + 48] == wrapped;
    assert forall i, j :: 0 <= i <= j <= keyEnd ==> s[i..j] == aad[i..j];
    assert s[9] == aad[9] && s[8] == aad[8];
  }

  lemma {:induction false} HeaderFields(info: Info, nonce: bytes, aad: bytes)
    requires 0 < |info.keyId| < U16_LIMIT && |info.uuid| == 16 && |nonce| == 12 && aad == AadHeader(info, nonce)
    ensures |aad| == 54 + |info.keyId| && aad[..8] == MAGIC && aad[8] == 1 && aad[9] == info.fileType
    ensures Get16(aad, 10) == |info.keyId| && aad[12..28] == info.uuid && Get64(aad, 28) == info.plainLen
    ensures Get32(aad, 36) == info.chunkSize && aad[40..52] == nonce && Get16(aad, 52) == 48 && aad[54..] == info.keyId
  {
    hide FromLE, LE;
    var wrappedLen := Put16(48);
    var front := MAGIC + [1, info.fileType] + Put16(|info.keyId|) + info.uuid;
    var back := Put64(info.plainLen) + Put32(info.chunkSize) + nonce + wrappedLen;
    assert aad == front + back + info.keyId;
    assert |front| == 28 && |back| == 26;
    assert aad[10..12] == front[10..12] == Put16(|info.keyId|);
    assert aad[12..28] == front[12..] == info.uuid;
    assert aad[28..36] == back[0..8] == Put64(info.plainLen);
    assert aad[36..40] == back[8..12] == Put32(info.chunkSize);
    assert aad[40..52] == back[12..24] == nonce;
    assert aad[52..54] == back[24..26] == wrappedLen;
  }

  lemma {:induction false} PiecesCount(plaintext: bytes, size: nat)
    requires size > 0
    ensures |Pieces(plaintext, size)| == (|plaintext| + size - 1) / size
    ensures Flat(Pieces(plaintext, size)) == plaintext
    decreases |plaintext|
  {
    if plaintext == [] {
      DivUnique(size - 1, size, 0, size - 1);
    } else if |plaintext| <= size {
      DivUnique(|plaintext| + size - 1, size, 1, |plaintext| - 1);
      assert Flat([plaintext]) == plaintext + Flat([plaintext][1..]);
    } else {
      PiecesCount(plaintext[size..], size);
      DivStep(|plaintext| + size - 1, size);
      assert plaintext == plaintext[..size] + plaintext[size..];
    }
  }

  lemma {:induction false} PieceLength(plaintext: bytes, size: nat, i: nat)
    requires size > 0 && i < |Pieces(plaintext, size)|
    ensures i * size < |plaintext|
    ensures |Pieces(plaintext, size)[i]| == if |plaintext| - i * size < size then |plaintext| - i * size else size
    decreases |plaintext|
  {
    if i > 0 {
      PieceLength(plaintext[size..], size, i - 1);
      assert i * size == (i - 1) * size + size;
    }
  }

  /** A body of frames sealed for this layout, wherever its header came from. */
  predicate SealedBody(a: Aead, l: Layout, file: bytes, pieces: seq<bytes>) {
    && l.info.chunkSize > 0 && |l.info.uuid| == 16 && |pieces| <= U32_LIMIT
    && l.bodyOffset <= |file| && file[l.bodyOffset..] == FramesFrom(a, l.info, l.dek, pieces, 0)
    && |pieces| == ChunkCount(l)
    && forall i :: 0 <= i < |pieces| ==> |pieces[i]| == PlainLength(l, i)
  }

  lemma {:induction false} FrameFacts(a: Aead, info: Info, dek: bytes, index: u32, plain: bytes)
    requires Lawful(a) && |info.uuid| == 16 && |plain| + 16 < U32_LIMIT
    ensures var f := FrameOf(a, info, dek, index, plain);
      var c := SealChunk(a, info, dek, index, plain);
      |f| == 4 + |plain| + 16 && |c| == |plain| + 16 && Get32(f, 0) == |plain| + 16 && f[4..] == c
  {
    hide FromLE, LE;
    var c := SealChunk(a, info, dek, index, plain);
    var f := FrameOf(a, info, dek, index, plain);
    assert f[0..4] == Put32(|c|);
  }

  /** The frames from `i` on lie where the layout computes them. */
  lemma {:induction false} FramesLie(a: Aead, l: Layout, file: bytes, pieces: seq<bytes>, i: nat)
    requires Lawful(a) && SealedBody(a, l, file, pieces) && l.info.chunkSize <= MAX_CHUNK_SIZE && i <= |pieces|
    ensures i < |pieces| ==>
      && ChunkStart(l, i) <= |file|
      && file[ChunkStart(l, i)..] == FramesFrom(a, l.info, l.dek, pieces, i)
    ensures i == |pieces| ==> BodyEnd(l) == |file|
  {
    hide FrameOf, ChunkCount, PlainLength, BodyEnd, Lawful;
    if i == 0 {
      FramesTile(l, 0);
      if |pieces| == 0 {
        NoBody(a, l, file, pieces);
      }
    } else {
      FramesLie(a, l, file, pieces, i - 1);
      CountMeans(l, i - 1);
      FramesTile(l, i - 1);
      FrameFacts(a, l.info, l.dek, i - 1, pieces[i - 1]);
      var start, f := ChunkStart(l, i - 1), FrameOf(a, l.info, l.dek, i - 1, pieces[i - 1]);
      assert file[start..] == f + FramesFrom(a, l.info, l.dek, pieces, i);
      assert file[start + |f|..] == file[start..][|f|..] == FramesFrom(a, l.info, l.dek, pieces, i);
    }
  }

  lemma {:induction false} NoBody(a: Aead, l: Layout, file: bytes, pieces: seq<bytes>)
    requires SealedBody(a, l, file, pieces) && |pieces| == 0
    ensures BodyEnd(l) == |file|
  {
  }

  lemma {:induction false} ChunkOpens(a: Aead, l: Layout, file: bytes, pieces: seq<bytes>, i: nat)
    requires Lawful(a) && SealedBody(a, l, file, pieces) && l.info.chunkSize <= MAX_CHUNK_SIZE && i < |pieces|
    ensures ChunkAt(a, l, file, i) == Ok(pieces[i])
  {
    hide FrameOf, ChunkCount, PlainLength, FromLE, ChunkStart;
    FramesLie(a, l, file, pieces, i);
    CountMeans(l, i);
    FrameFacts(a, l.info, l.dek, i, pieces[i]);
    var start, f := ChunkStart(l, i), FrameOf(a, l.info, l.dek, i, pieces[i]);
    assert file[start..] == f + FramesFrom(a, l.info, l.dek, pieces, i + 1);
    assert file[start..start + |f|] == file[start..][..|f|] == f;
  }

  lemma {:induction false} ChunksOpen(a: Aead, l: Layout, file: bytes, pieces: seq<bytes>, i: nat)
    requires Lawful(a) && SealedBody(a, l, file, pieces) && l.info.chunkSize <= MAX_CHUNK_SIZE && i <= |pieces|
    ensures ChunksFrom(a, l, file, i) == Ok(pieces[i..])
    decreases |pieces| - i
  {
    hide SealedBody, ChunkAt, ChunkCount, Lawful;
    assert |pieces| == ChunkCount(l) && l.info.chunkSize > 0 by { BodyCount(a, l, file, pieces); }
    if i < |pieces| {
      ChunkOpens(a, l, file, pieces, i);
      ChunksOpen(a, l, file, pieces, i + 1);
      assert pieces[i..] == [pieces[i]] + pieces[i + 1..];
    } else {
      assert pieces[i..] == [];
    }
  }

  lemma {:induction false} BodyCount(a: Aead, l: Layout, file: bytes, pieces: seq<bytes>)
    requires SealedBody(a, l, file, pieces)
    ensures |pieces| == ChunkCount(l) && l.info.chunkSize > 0
  {
  }

  /** A sealed body is accepted, chunk for chunk. */
  lemma {:induction false} SealedVerifies(a: Aead, l: Layout, file: bytes, pieces: seq<bytes>)
    requires Lawful(a) && SealedBody(a, l, file, pieces) && l.info.chunkSize <= MAX_CHUNK_SIZE
    ensures Verified(a, l, file) == Ok(pieces)
  {
    hide ChunksFrom, Lawful;
    ChunksOpen(a, l, file, pieces, 0);
    FramesLie(a, l, file, pieces, |pieces|);
    assert pieces[0..] == pieces;
  }

  lemma {:induction false} SealedPieces(a: Aead, l: Layout, file: bytes, plaintext: bytes)
    requires l.info.chunkSize > 0 && |l.info.uuid| == 16 && l.info.plainLen == |plaintext|
    requires |Pieces(plaintext, l.info.chunkSize)| <= U32_LIMIT
    requires l.bodyOffset <= |file| && file[l.bodyOffset..] == FramesFrom(a, l.info, l.dek,
      Pieces(plaintext, l.info.chunkSize), 0)
    ensures SealedBody(a, l, file, Pieces(plaintext, l.info.chunkSize))
  {
    hide FramesFrom, Pieces;
    var pieces := Pieces(plaintext, l.info.chunkSize);
    PiecesCount(plaintext, l.info.chunkSize);
    forall i | 0 <= i < |pieces| ensures |pieces[i]| == PlainLength(l, i) {
      PieceLength(plaintext, l.info.chunkSize, i);
    }
  }

  lemma {:induction false} LayoutOpens(k: Keyring, a: Aead, info: Info, rnd: Randomness, body: bytes)
    requires Lawful(a) && rnd.Valid() && FileTypeKnown(info.fileType) && info.uuid == rnd.uuid
    requires info.keyId in k.keys && 0 < |info.keyId| <= MAX_KEY_ID_BYTES && 0 < info.chunkSize <= MAX_CHUNK_SIZE
    ensures OpenLayout(k, a, HeaderBytes(k, a, info, rnd) + body)
      == Ok(Layout(info, |HeaderBytes(k, a, info, rnd)|, rnd.dek))
  {
    hide ParseHeader, AadHeader;
    var aad := AadHeader(info, rnd.nonce);
    HeaderParses(info, rnd.nonce, a.seal(k.keys[info.keyId], rnd.nonce, aad, rnd.dek), body);
  }

  /** Every encryption with a chunk size up to 4 MiB opens again: the frames verify as the pieces of the
      plaintext, and whole-file decryption returns it. */
  lemma {:induction false} EncryptionRoundTrip(
    k: Keyring, a: Aead, fileType: byte, plaintext: bytes, chunkSize: nat, rnd: Randomness, file: bytes)
    requires Lawful(a) && k.Valid() && rnd.Valid() && 1 <= fileType <= 6 && chunkSize <= MAX_CHUNK_SIZE
    requires EncryptBytes(k, a, fileType, plaintext, chunkSize, rnd) == Ok(file)
    ensures OpenLayout(k, a, file).Ok?
    ensures Verified(a, OpenLayout(k, a, file).value, file) == Ok(Pieces(plaintext, chunkSize))
    ensures DecryptBytes(k, a, file) == Ok((Info(fileType, k.active, rnd.uuid, |plaintext|, chunkSize), plaintext))
  {
    hide FramesFrom, Pieces, HeaderBytes, OpenLayout, DecryptBytes, Verified, Lawful;
    var info := Info(fileType, k.active, rnd.uuid, |plaintext|, chunkSize);
    var header := HeaderBytes(k, a, info, rnd);
    var body := FramesFrom(a, info, rnd.dek, Pieces(plaintext, chunkSize), 0);
    LayoutOpens(k, a, info, rnd, body);
    var l := Layout(info, |header|, rnd.dek);
    assert file[|header|..] == body;
    SealedPieces(a, l, file, plaintext);
    SealedVerifies(a, l, file, Pieces(plaintext, chunkSize));
    VerifiedDecrypts(k, a, file);
    PiecesCount(plaintext, chunkSize);
  }

  /** The 32-bit counter makes the two readings differ: 2^32 chunks of one byte pass verification and do not decrypt. */
  lemma {:induction false} CounterOverflows(k: Keyring, a: Aead, rnd: Randomness)
    requires Lawful(a) && k.Valid() && rnd.Valid()
    ensures exists file ::
      && OpenLayout(k, a, file).Ok? && Verified(a, OpenLayout(k, a, file).value, file).Ok?
      && DecryptBytes(k, a, file).Err?
  {
    hide FramesFrom, Pieces, HeaderBytes, OpenLayout, DecryptBytes, Verified, Lawful;
    var plaintext := Zeros(U32_LIMIT);
    var info := Info(1, k.active, rnd.uuid, U32_LIMIT, 1);
    var header := HeaderBytes(k, a, info, rnd);
    PiecesCount(plaintext, 1);
    var body := FramesFrom(a, info, rnd.dek, Pieces(plaintext, 1), 0);
    var file := header + body;
    LayoutOpens(k, a, info, rnd, body);
    var l := Layout(info, |header|, rnd.dek);
    assert file[|header|..] == body;
    SealedPieces(a, l, file, plaintext);
    SealedVerifies(a, l, file, Pieces(plaintext, 1));
    VerifiedDecrypts(k, a, file);
  }
}
