/** What ties a chunk to its place in its file (`chunk_nonce` and `chunk_aad` in `encryption.rs`): no two chunks of a
    file share a nonce or associated data, so an authenticated encryption refuses a chunk anywhere else. */
module EnvelopeBinding {
  import opened Wrappers
  import opened Bytes
  import opened Envelope

  /** A 32-bit number, most significant byte first. */
  function BigEndian(v: u32): (s: bytes)
    ensures |s| == 4
  {
    var s := LE(v, 4);
    [s[3], s[2], s[1], s[0]]
  }

  lemma {:induction false} BigEndianInjective(v: u32, w: u32)
    ensures BigEndian(v) == BigEndian(w) <==> v == w
  {
    hide LE;
    PowValues();
    LERoundTrip(v, 4);
    LERoundTrip(w, 4);
    var s, t := LE(v, 4), LE(w, 4);
    if BigEndian(v) == BigEndian(w) {
      var x, y := BigEndian(v), BigEndian(w);
      assert s[3] == x[0] && s[2] == x[1] && s[1] == x[2] && s[0] == x[3];
      assert t[3] == y[0] && t[2] == y[1] && t[1] == y[2] && t[0] == y[3];
      assert s == t;
    }
  }

  lemma {:induction false} FourBytes(v: u32)
    ensures LE(v, 4) == [v % 256, v / 0x100 % 256, v / 0x1_0000 % 256, v / 0x100_0000]
  {
    var a, b, c := v / 256, v / 256 / 256, v / 256 / 256 / 256;
    assert LE(v, 4) == [v % 256] + LE(a, 3);
    assert LE(a, 3) == [a % 256] + LE(b, 2);
    assert LE(b, 2) == [b % 256] + LE(c, 1);
    assert LE(c, 1) == [c % 256] + LE(c / 256, 0);
  }

  /** The nonce is the first half of the file's id and the index, most significant byte first. */
  lemma {:induction false} NonceIs(uuid: bytes, index: u32)
    requires |uuid| == 16
    ensures ChunkNonce(uuid, index) == uuid[..8] + BigEndian(index)
  {
    FourBytes(index);
  }

  /** Within a file the nonce tells the index. */
  lemma {:induction false} NonceExact(uuid: bytes, i: u32, j: u32)
    requires |uuid| == 16
    ensures ChunkNonce(uuid, i) == ChunkNonce(uuid, j) <==> i == j
  {
    hide ChunkNonce, BigEndian;
    NonceIs(uuid, i);
    NonceIs(uuid, j);
    BigEndianInjective(i, j);
    if ChunkNonce(uuid, i) == ChunkNonce(uuid, j) {
      assert (uuid[..8] + BigEndian(i))[8..] == BigEndian(i) && (uuid[..8] + BigEndian(j))[8..] == BigEndian(j);
    }
  }

  lemma {:induction false} AadFields(info: Info, index: u32)
    requires |info.uuid| == 16
    ensures var s := ChunkAad(info, index);
      && |s| == 42 && s[9] == info.fileType && s[10..26] == info.uuid && Get64(s, 26) == info.plainLen
      && Get32(s, 34) == info.chunkSize && Get32(s, 38) == index
  {
    hide FromLE, LE;
    var s := ChunkAad(info, index);
    var front, a, b, c := MAGIC + [1, info.fileType], Put64(info.plainLen), Put32(info.chunkSize), Put32(index);
    assert s == front + info.uuid + a + b + c;
    assert |front| == 10 && s[9] == front[9];
    assert s[10..26] == info.uuid && s[26..34] == a && s[34..38] == b && s[38..42] == c;
  }

  /** The associated data tell the index, and what the file is: its type, id, length and chunk size. */
  lemma {:induction false} AadExact(x: Info, i: u32, y: Info, j: u32)
    requires |x.uuid| == 16 && |y.uuid| == 16
    ensures ChunkAad(x, i) == ChunkAad(y, j) <==>
      i == j && x.fileType == y.fileType && x.uuid == y.uuid && x.plainLen == y.plainLen && x.chunkSize == y.chunkSize
  {
    hide ChunkAad, FromLE;
    AadFields(x, i);
    AadFields(y, j);
    if i == j && x.fileType == y.fileType && x.uuid == y.uuid && x.plainLen == y.plainLen
      && x.chunkSize == y.chunkSize {
      AadSame(x, y, i);
    }
  }

  lemma {:induction false} AadSame(x: Info, y: Info, i: u32)
    requires x.fileType == y.fileType && x.uuid == y.uuid && x.plainLen == y.plainLen && x.chunkSize == y.chunkSize
    ensures ChunkAad(x, i) == ChunkAad(y, i)
  {
  }

  // ----- Which headers are accepted -----

  /** What a header may state. */
  predicate Stated(info: Info, nonce: bytes, wrapped: bytes) {
    && 1 <= info.fileType <= 6 && 0 < |info.keyId| <= 128 && |info.uuid| == 16
    && 0 < info.chunkSize <= 4194304 && |nonce| == 12 && |wrapped| == 48
  }

  /** The magic, version 1, and the fields in their places. */
  function HeaderText(info: Info, nonce: bytes, wrapped: bytes): bytes
    requires Stated(info, nonce, wrapped)
  {
    [67, 72, 73, 82, 69, 78, 67, 49, 1, info.fileType] + Put16(|info.keyId|) + info.uuid + Put64(info.plainLen)
    + Put32(info.chunkSize) + nonce + [48, 0] + info.keyId + wrapped
  }

  lemma {:induction false} TextIsHeader(info: Info, nonce: bytes, wrapped: bytes)
    requires Stated(info, nonce, wrapped)
    ensures HeaderText(info, nonce, wrapped) == AadHeader(info, nonce) + wrapped
  {
    hide FromLE;
    assert LE(48, 2) == [48, 0] by {
      assert LE(48, 2) == [48] + LE(0, 1) && LE(0, 1) == [0] + LE(0, 0);
    }
  }

  /** The number at a place, written again, is what stands there. */
  lemma {:induction false} WrittenAgain(s: bytes, at: nat)
    requires at + 8 <= |s|
    ensures Put16(Get16(s, at)) == s[at..at + 2]
    ensures Put32(Get32(s, at)) == s[at..at + 4]
    ensures Put64(Get64(s, at)) == s[at..at + 8]
  {
    hide LE, FromLE;
    PowValues();
    LEOfFrom(s[at..at + 2]);
    LEOfFrom(s[at..at + 4]);
    LEOfFrom(s[at..at + 8]);
  }

  lemma {:induction false} ParsedIsText(s: bytes)
    requires ParseHeader(s).Ok?
    ensures var p := ParseHeader(s).value;
      Stated(p.info, p.nonce, p.wrapped) && s[..p.bodyOffset] == AadHeader(p.info, p.nonce) + p.wrapped
  {
    hide FromLE, LE;
    var p := ParseHeader(s).value;
    var keyEnd := 54 + |p.info.keyId|;
    WrittenAgain(s, 10);
    WrittenAgain(s, 28);
    WrittenAgain(s, 36);
    WrittenAgain(s, 52);
    var head := s[..8] + [s[8], s[9]] + s[10..12];
    assert s[..12] == head;
    assert s[..keyEnd] == s[..12] + s[12..28] + s[28..36] + s[36..40] + s[40..52] + s[52..54] + s[54..keyEnd];
    assert s[..keyEnd + 48] == s[..keyEnd] + s[keyEnd..keyEnd + 48];
  }

  /** A file's header is accepted exactly when it is the header text of what it states. */
  lemma {:induction false} HeaderExact(s: bytes)
    ensures ParseHeader(s).Ok? <==>
      exists info, nonce, wrapped :: Stated(info, nonce, wrapped) && HeaderText(info, nonce, wrapped) <= s
    ensures ParseHeader(s).Ok? ==> var p := ParseHeader(s).value;
      && Stated(p.info, p.nonce, p.wrapped) && HeaderText(p.info, p.nonce, p.wrapped) <= s
      && p.bodyOffset == 102 + |p.info.keyId|
  {
    hide AadHeader, ParseHeader, HeaderText;
    if ParseHeader(s).Ok? {
      var p := ParseHeader(s).value;
      ParsedIsText(s);
      TextIsHeader(p.info, p.nonce, p.wrapped);
      BodyStarts(s);
      assert HeaderText(p.info, p.nonce, p.wrapped) <= s;
    }
    if info, nonce, wrapped :| Stated(info, nonce, wrapped) && HeaderText(info, nonce, wrapped) <= s {
      TextIsHeader(info, nonce, wrapped);
      var text := HeaderText(info, nonce, wrapped);
      HeaderParses(info, nonce, wrapped, s[|text|..]);
      assert s == text + s[|text|..];
    }
  }

  lemma {:induction false} BodyStarts(s: bytes)
    requires ParseHeader(s).Ok?
    ensures ParseHeader(s).value.bodyOffset == 102 + |ParseHeader(s).value.info.keyId|
  {
    hide FromLE;
  }

  // ----- What encryption writes -----

  /** Encryption refuses exactly a chunk size that is zero or not 32 bits, and a plaintext of 2^64 bytes or of more
      chunks than it can count. */
  lemma {:induction false} EncryptExact(
    k: Keyring, a: Aead, fileType: byte, plaintext: bytes, chunkSize: nat, rnd: Randomness)
    requires k.Valid() && rnd.Valid()
    ensures EncryptBytes(k, a, fileType, plaintext, chunkSize, rnd).Ok? <==>
      && 0 < chunkSize < 0x1_0000_0000 && |plaintext| < 0x1_0000_0000_0000_0000
      && (|plaintext| + chunkSize - 1) / chunkSize <= 0xFFFF_FFFF
  {
    hide Pieces, FramesFrom, HeaderBytes;
    if chunkSize > 0 {
      PiecesCount(plaintext, chunkSize);
    }
  }

  /** Where frame `i` starts in an encryption: after the header and `i` whole frames. */
  function FramePlace(k: Keyring, chunkSize: nat, i: nat): nat {
    54 + |k.active| + 48 + i * (chunkSize + 20)
  }

  /** Every frame of an encryption is a chunk of the plaintext, sealed under a nonce and associated data that hold its
      index. */
  lemma {:induction false} FrameOfEncryption(
    k: Keyring, a: Aead, fileType: byte, plaintext: bytes, chunkSize: nat, rnd: Randomness, i: nat)
    requires Lawful(a) && k.Valid() && rnd.Valid() && 1 <= fileType <= 6 && chunkSize <= MAX_CHUNK_SIZE
    requires EncryptBytes(k, a, fileType, plaintext, chunkSize, rnd).Ok? && i < |Pieces(plaintext, chunkSize)|
    ensures var file := EncryptBytes(k, a, fileType, plaintext, chunkSize, rnd).value;
      var info := Info(fileType, k.active, rnd.uuid, |plaintext|, chunkSize);
      var place := FramePlace(k, chunkSize, i);
      var cipher := a.seal(rnd.dek, rnd.uuid[..8] + BigEndian(i), ChunkAad(info, i), Pieces(plaintext, chunkSize)[i]);
      && |cipher| < U32_LIMIT && place + 4 + |cipher| <= |file|
      && file[place..place + 4 + |cipher|] == Put32(|cipher|) + cipher
  {
    hide FramesFrom, Pieces, HeaderBytes, ChunkNonce, ChunkAad, BigEndian, Lawful, SealedBody, PlainLength;
    var info := Info(fileType, k.active, rnd.uuid, |plaintext|, chunkSize);
    var pieces := Pieces(plaintext, chunkSize);
    var file := EncryptBytes(k, a, fileType, plaintext, chunkSize, rnd).value;
    var header := HeaderBytes(k, a, info, rnd);
    var l := Layout(info, |header|, rnd.dek);
    HeaderLength(k, a, info, rnd);
    assert file[|header|..] == FramesFrom(a, info, rnd.dek, pieces, 0);
    SealedPieces(a, l, file, plaintext);
    FrameLies(a, l, file, pieces, i);
    NonceIs(rnd.uuid, i);
  }

  /** No two frames of a file share a nonce or associated data. */
  lemma {:induction false} FramesApart(info: Info, i: u32, j: u32)
    requires |info.uuid| == 16 && i != j
    ensures info.uuid[..8] + BigEndian(i) != info.uuid[..8] + BigEndian(j) && ChunkAad(info, i) != ChunkAad(info, j)
  {
    hide ChunkNonce, ChunkAad, BigEndian;
    NonceIs(info.uuid, i);
    NonceIs(info.uuid, j);
    NonceExact(info.uuid, i, j);
    AadExact(info, i, info, j);
  }

  lemma {:induction false} HeaderLength(k: Keyring, a: Aead, info: Info, rnd: Randomness)
    requires Lawful(a) && rnd.Valid() && |info.uuid| == 16 && 0 < |info.keyId| < U16_LIMIT && info.keyId in k.keys
    ensures |HeaderBytes(k, a, info, rnd)| == 54 + |info.keyId| + 48
  {
    HeaderFields(info, rnd.nonce, AadHeader(info, rnd.nonce));
  }

  lemma {:induction false} FrameLies(a: Aead, l: Layout, file: bytes, pieces: seq<bytes>, i: nat)
    requires Lawful(a) && SealedBody(a, l, file, pieces) && l.info.chunkSize <= MAX_CHUNK_SIZE
    requires i < |pieces| && i < U32_LIMIT
    ensures var start, cipher := ChunkStart(l, i), SealChunk(a, l.info, l.dek, i, pieces[i]);
      && |cipher| == PlainLength(l, i) + 16 < U32_LIMIT && start + 4 + |cipher| <= |file|
      && file[start..start + 4 + |cipher|] == Put32(|cipher|) + cipher
  {
    hide ChunkCount, PlainLength, SealChunk;
    FramesLie(a, l, file, pieces, i);
    CountMeans(l, i);
    FrameFacts(a, l.info, l.dek, i, pieces[i]);
    var start, f := ChunkStart(l, i), FrameOf(a, l.info, l.dek, i, pieces[i]);
    assert file[start..] == f + FramesFrom(a, l.info, l.dek, pieces, i + 1);
    assert file[start..start + |f|] == file[start..][..|f|] == f;
  }

  // ----- Authentication -----

  /** Opening fails under another nonce or other associated data, as far as the chunks of one file go. */
  ghost predicate Authentic(a: Aead, info: Info)
    requires |info.uuid| == 16
  {
    forall i: u32, j: u32, key, p ::
      ChunkNonce(info.uuid, i) != ChunkNonce(info.uuid, j) || ChunkAad(info, i) != ChunkAad(info, j) ==>
        Refused(a, info, key, i, j, p)
  }

  /** A text sealed for chunk `j` does not open as chunk `i`. */
  predicate Refused(a: Aead, info: Info, key: bytes, i: u32, j: u32, p: bytes)
    requires |info.uuid| == 16
  {
    a.open(key, ChunkNonce(info.uuid, i), ChunkAad(info, i),
      a.seal(key, ChunkNonce(info.uuid, j), ChunkAad(info, j), p))
      .None?
  }

  /** The law can be met together with the others: the associated data's last four bytes serve as a tag. */
  lemma {:induction false} AuthenticAead(info: Info) returns (a: Aead)
    requires |info.uuid| == 16
    ensures Lawful(a) && Authentic(a, info)
  {
    hide FromLE, LE, ChunkAad, ChunkNonce;
    var tag := (d: bytes) => (if |d| >= 4 then d[|d| - 4..] else Zeros(4)) + Zeros(12);
    a := Aead((k, n, d, p) => p + tag(d),
      (k, n, d, c) => if |c| >= 16 && c[|c| - 16..] == tag(d) then Some(c[..|c| - 16]) else None);
    forall k, n, d, p: bytes
      ensures |a.seal(k, n, d, p)| == |p| + 16 && a.open(k, n, d, a.seal(k, n, d, p)) == Some(p)
    {
      assert (p + tag(d))[..|p|] == p && (p + tag(d))[|p|..] == tag(d);
    }
    forall i: u32, j: u32, key, p: bytes
      | ChunkNonce(info.uuid, i) != ChunkNonce(info.uuid, j) || ChunkAad(info, i) != ChunkAad(info, j)
      ensures Refused(a, info, key, i, j, p)
    {
      var d, e := ChunkAad(info, i), ChunkAad(info, j);
      AadFields(info, i);
      AadFields(info, j);
      assert (p + tag(e))[|p|..] == tag(e);
      assert tag(d)[..4] == d[38..42] && tag(e)[..4] == e[38..42];
    }
  }

  /** A frame that was sealed for another index is refused where it stands. */
  lemma {:induction false} ForeignFrameRefused(a: Aead, l: Layout, file: bytes, i: u32, j: u32, p: bytes)
    requires |l.info.uuid| == 16 && l.info.chunkSize > 0 && Authentic(a, l.info) && i != j && i < ChunkCount(l)
    requires var cipher := SealChunk(a, l.info, l.dek, j, p);
      && |cipher| == PlainLength(l, i) + 16 < U32_LIMIT && ChunkStart(l, i) + 4 + |cipher| <= |file|
      && file[ChunkStart(l, i)..ChunkStart(l, i) + 4 + |cipher|] == Put32(|cipher|) + cipher
    ensures ChunkAt(a, l, file, i).Err?
  {
    hide FromLE, LE, ChunkCount, PlainLength, ChunkAad, ChunkNonce, ChunkStart;
    NonceExact(l.info.uuid, i, j);
    assert Refused(a, l.info, l.dek, i, j, p);
    var cipher := SealChunk(a, l.info, l.dek, j, p);
    var frame := Put32(|cipher|) + cipher;
    assert frame[4..] == cipher;
  }

  /** Frames `i` and `j` of a body exchanged. */
  function Swapped(l: Layout, file: bytes, i: nat, j: nat): bytes
    requires i < j && ChunkStart(l, i) + 4 + PlainLength(l, i) + 16 <= ChunkStart(l, j)
    requires ChunkStart(l, j) + 4 + PlainLength(l, j) + 16 <= |file|
  {
    var (x, y) := (ChunkStart(l, i), ChunkStart(l, j));
    var (x', y') := (x + 4 + PlainLength(l, i) + 16, y + 4 + PlainLength(l, j) + 16);
    file[..x] + file[y..y'] + file[x'..y] + file[x..x'] + file[y'..]
  }

  lemma {:induction false} FramesInOrder(l: Layout, i: nat, j: nat)
    requires l.info.chunkSize > 0 && i < j < ChunkCount(l)
    ensures ChunkStart(l, i) + 4 + PlainLength(l, i) + 16 <= ChunkStart(l, j)
  {
    hide ChunkCount, PlainLength;
    CountMeans(l, i);
    MulMonotone(i + 1, j, l.info.chunkSize + 20);
    assert (i + 1) * (l.info.chunkSize + 20) == i * (l.info.chunkSize + 20) + l.info.chunkSize + 20;
  }

  /** A file with two of its frames exchanged, even of one length, does not verify. */
  lemma {:induction false} SwapRefused(a: Aead, l: Layout, file: bytes, pieces: seq<bytes>, i: nat, j: nat)
    requires Lawful(a) && SealedBody(a, l, file, pieces) && l.info.chunkSize <= MAX_CHUNK_SIZE && Authentic(a, l.info)
    requires i < j < |pieces| && |pieces[i]| == |pieces[j]|
    ensures ChunkStart(l, i) + 4 + PlainLength(l, i) + 16 <= ChunkStart(l, j)
    ensures ChunkStart(l, j) + 4 + PlainLength(l, j) + 16 <= |file|
    ensures Verified(a, l, Swapped(l, file, i, j)).Err?
  {
    hide FramesFrom, ChunkCount, PlainLength, ChunkStart, SealChunk, Authentic, Lawful, ChunkAt;
    FramesInOrder(l, i, j);
    FrameLies(a, l, file, pieces, j);
    FrameLies(a, l, file, pieces, i);
    var other := Swapped(l, file, i, j);
    var x, y, n := ChunkStart(l, i), ChunkStart(l, j), 4 + PlainLength(l, i) + 16;
    assert other[x..x + n] == file[y..y + n];
    ForeignFrameRefused(a, l, other, i, j, pieces[j]);
    RefusedWhole(a, l, other, 0, i);
  }

  lemma {:induction false} RefusedWhole(a: Aead, l: Layout, file: bytes, from: nat, i: nat)
    requires l.info.chunkSize > 0 && from <= i < ChunkCount(l) && ChunkAt(a, l, file, i).Err?
    ensures ChunksFrom(a, l, file, from).Err?
    decreases i - from
  {
    hide ChunkAt, ChunkCount;
    if from < i {
      RefusedWhole(a, l, file, from + 1, i);
    }
  }
}
