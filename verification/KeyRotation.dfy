/** Key rotation of `encryption.rs`: the data key of every envelope is wrapped
    again under the active key, file by file, under a journal that lets an
    interrupted rotation be run again. */
module KeyRotation {
  import opened Wrappers
  import opened Bytes
  import opened Envelope

  // ----- One envelope -----

  function RewrapEnvelope(k: Keyring, a: Aead, env: bytes, nonce: bytes): Result<bytes>
    requires k.Valid() && |nonce| == 12
  {
    var parsed :- ParseHeader(env);
    :- Need(parsed.info.keyId in k.keys);
    var dek := a.open(k.keys[parsed.info.keyId], parsed.nonce, parsed.aad, parsed.wrapped);
    :- Need(dek.Some?);
    var aad := AadHeader(parsed.info.(keyId := k.active), nonce);
    Ok(aad + a.seal(k.keys[k.active], nonce, aad, dek.value) + env[parsed.bodyOffset..])
  }

  /** Same length, same data key, same description but for the key id, same body. */
  predicate SameButKey(l: Layout, l': Layout, env: bytes, env': bytes) {
    && |env'| == |env|
    && l' == l.(info := l.info.(keyId := l'.info.keyId))
    && l.bodyOffset <= |env|
    && env'[l.bodyOffset..] == env[l.bodyOffset..]
  }

  /** An envelope this keyring opens, whose wrapped key fills its field. */
  predicate Opens(k: Keyring, a: Aead, env: bytes) {
    OpenLayout(k, a, env).Ok?
  }

  /** Rewrapping an envelope the keyring opens succeeds; since every id of a loaded keyring has the same
      length, nothing moves: only the key id and the wrapping change. */
  lemma {:induction false} RewrapKeeps(k: Keyring, a: Aead, env: bytes, nonce: bytes)
    requires Lawful(a) && k.Valid() && |nonce| == 12 && Opens(k, a, env)
    ensures RewrapEnvelope(k, a, env, nonce).Ok?
    ensures var env' := RewrapEnvelope(k, a, env, nonce).value;
      && Opens(k, a, env')
      && OpenLayout(k, a, env').value.info.keyId == k.active
      && SameButKey(OpenLayout(k, a, env).value, OpenLayout(k, a, env').value, env, env')
  {
    hide ParseHeader, AadHeader;
    var parsed := ParseHeader(env).value;
    var l := OpenLayout(k, a, env).value;
    var info := parsed.info.(keyId := k.active);
    var aad := AadHeader(info, nonce);
    var wrapped := a.seal(k.keys[k.active], nonce, aad, l.dek);
    ParsedFacts(env);
    HeaderParses(info, nonce, wrapped, env[parsed.bodyOffset..]);
    AadLength(info, nonce);
    var env' := aad + wrapped + env[parsed.bodyOffset..];
    assert env'[|aad| + 48..] == env[parsed.bodyOffset..];
  }

  lemma {:induction false} AadLength(info: Info, nonce: bytes)
    requires 0 < |info.keyId| < U16_LIMIT && |info.uuid| == 16 && |nonce| == 12
    ensures |AadHeader(info, nonce)| == 54 + |info.keyId|
  {
    HeaderFields(info, nonce, AadHeader(info, nonce));
  }

  lemma {:induction false} ParsedFacts(env: bytes)
    requires ParseHeader(env).Ok?
    ensures var p := ParseHeader(env).value;
      && FileTypeKnown(p.info.fileType) && 0 < |p.info.keyId| <= MAX_KEY_ID_BYTES && |p.info.uuid| == 16
      && p.bodyOffset == 54 + |p.info.keyId| + 48 && 0 < p.info.chunkSize <= MAX_CHUNK_SIZE
  {
  }

  // ----- The body does not notice -----

  lemma {:induction false} ChunkUnchanged(a: Aead, l: Layout, l': Layout, env: bytes, env': bytes, i: nat)
    requires SameButKey(l, l', env, env') && l.info.chunkSize > 0
    ensures ChunkCount(l') == ChunkCount(l) && ChunkAt(a, l', env', i) == ChunkAt(a, l, env, i)
  {
    hide ChunkCount, PlainLength, FromLE, ChunkStart;
    assert ChunkCount(l') == ChunkCount(l) && PlainLength(l', i) == PlainLength(l, i)
      && ChunkStart(l', i) == ChunkStart(l, i) by {
      LayoutFunctions(l, l', i);
    }
    if EncryptedChunkRange(l, i).Ok? {
      var start, end := ChunkStart(l, i), ChunkStart(l, i) + 4 + PlainLength(l, i) + 16;
      StartsInBody(l, i);
      if end <= |env| {
        SameSlice(l, l', env, env', start, end);
      }
    }
  }

  lemma {:induction false} LayoutFunctions(l: Layout, l': Layout, i: nat)
    requires l.info.chunkSize > 0 && l' == l.(info := l.info.(keyId := l'.info.keyId))
    ensures ChunkCount(l') == ChunkCount(l) && PlainLength(l', i) == PlainLength(l, i)
      && ChunkStart(l', i) == ChunkStart(l, i)
  {
  }

  lemma {:induction false} StartsInBody(l: Layout, i: nat)
    ensures l.bodyOffset <= ChunkStart(l, i)
  {
  }

  lemma {:induction false} SameSlice(l: Layout, l': Layout, env: bytes, env': bytes, from: nat, to: nat)
    requires SameButKey(l, l', env, env') && l.bodyOffset <= from <= to <= |env|
    ensures env'[from..to] == env[from..to]
  {
    var b := l.bodyOffset;
    SubSlice(env, b, |env|, from - b, to - b);
    SubSlice(env', b, |env|, from - b, to - b);
    assert env[b..|env|] == env[b..] && env'[b..|env|] == env'[b..];
  }

  lemma {:induction false} ChunksUnchanged(a: Aead, l: Layout, l': Layout, env: bytes, env': bytes, i: nat)
    requires SameButKey(l, l', env, env') && l.info.chunkSize > 0 && i <= ChunkCount(l)
    ensures i <= ChunkCount(l') && ChunksFrom(a, l', env', i) == ChunksFrom(a, l, env, i)
    decreases ChunkCount(l) - i
  {
    hide ChunkCount, ChunkAt;
    ChunkUnchanged(a, l, l', env, env', i);
    if i < ChunkCount(l) {
      ChunksUnchanged(a, l, l', env, env', i + 1);
    }
  }

  /** Verification sees the same chunks. */
  lemma {:induction false} VerifiedUnchanged(a: Aead, l: Layout, l': Layout, env: bytes, env': bytes)
    requires SameButKey(l, l', env, env') && l.info.chunkSize > 0
    ensures l'.info.chunkSize > 0 && Verified(a, l', env') == Verified(a, l, env)
  {
    hide ChunksFrom, ChunkCount, PlainLength, ChunkStart;
    ChunksUnchanged(a, l, l', env, env', 0);
    LayoutFunctions(l, l', 0);
    if ChunkCount(l) > 0 {
      LayoutFunctions(l, l', ChunkCount(l) - 1);
    }
  }

  lemma {:induction false} DecryptUnchanged(
    a: Aead, l: Layout, l': Layout, env: bytes, env': bytes, offset: nat, index: nat, room: int)
    requires SameButKey(l, l', env, env') && l.bodyOffset <= offset
    ensures DecryptFrom(a, l', env', offset, index, room) == DecryptFrom(a, l, env, offset, index, room)
    decreases |env| - offset
  {
    hide FromLE;
    if offset + 4 <= |env| && index <= U32_MAX {
      SameSlice(l, l', env, env', offset, offset + 4);
      var n := Get32(env, offset);
      var end := offset + 4 + n;
      if end <= |env| {
        SameSlice(l, l', env, env', offset + 4, end);
        var chunk := OpenChunk(a, l, index, env[offset + 4..end]);
        if chunk.Some? {
          DecryptUnchanged(a, l, l', env, env', end, index + 1, room - |chunk.value|);
        }
      }
    }
  }

  function PlaintextOf(k: Keyring, a: Aead, env: bytes): Result<bytes> {
    var (info, plaintext) :- DecryptBytes(k, a, env);
    Ok(plaintext)
  }

  /** Whatever whole-file decryption said before the rewrapping, it says after it. */
  lemma {:induction false} PlaintextUnchanged(k: Keyring, a: Aead, env: bytes, env': bytes)
    requires Opens(k, a, env) && Opens(k, a, env')
    requires SameButKey(OpenLayout(k, a, env).value, OpenLayout(k, a, env').value, env, env')
    ensures PlaintextOf(k, a, env') == PlaintextOf(k, a, env)
  {
    hide OpenLayout, DecryptFrom;
    var l, l' := OpenLayout(k, a, env).value, OpenLayout(k, a, env').value;
    DecryptUnchanged(a, l, l', env, env', l.bodyOffset, 0, l.info.plainLen);
  }

  // ----- Frames of a log file -----

  function KeyIdOf(env: bytes): Option<bytes> {
    match ParseHeader(env)
    case Ok(p) => Some(p.info.keyId)
    case Err => None
  }

  /** An envelope under the active key stays as it is. */
  function RewrapIfStale(k: Keyring, a: Aead, env: bytes, nonce: bytes): Result<bytes>
    requires k.Valid() && |nonce| == 12
  {
    if KeyIdOf(env) == Some(k.active) then Ok(env) else RewrapEnvelope(k, a, env, nonce)
  }

  /** What one rotation does to one envelope. */
  predicate Kept(k: Keyring, a: Aead, env: bytes, env': bytes) {
    && Opens(k, a, env) && Opens(k, a, env')
    && SameButKey(OpenLayout(k, a, env).value, OpenLayout(k, a, env').value, env, env')
    && (KeyIdOf(env') == Some(k.active) || KeyIdOf(env') == KeyIdOf(env))
  }

  lemma {:induction false} LayoutKey(k: Keyring, a: Aead, env: bytes)
    requires Opens(k, a, env)
    ensures KeyIdOf(env) == Some(OpenLayout(k, a, env).value.info.keyId)
  {
    hide ParseHeader;
  }

  lemma {:induction false} RewrapIfStaleKeeps(k: Keyring, a: Aead, env: bytes, nonce: bytes)
    requires Lawful(a) && k.Valid() && |nonce| == 12 && Opens(k, a, env)
    ensures RewrapIfStale(k, a, env, nonce).Ok?
    ensures Kept(k, a, env, RewrapIfStale(k, a, env, nonce).value)
    ensures KeyIdOf(RewrapIfStale(k, a, env, nonce).value) == Some(k.active)
  {
    hide OpenLayout, RewrapEnvelope, Lawful, KeyIdOf;
    OpenedBody(k, a, env);
    if KeyIdOf(env) != Some(k.active) {
      RewrapKeeps(k, a, env, nonce);
      LayoutKey(k, a, RewrapEnvelope(k, a, env, nonce).value);
    }
  }

  lemma {:induction false} OpenedBody(k: Keyring, a: Aead, env: bytes)
    requires Opens(k, a, env)
    ensures OpenLayout(k, a, env).value.bodyOffset <= |env| && OpenLayout(k, a, env).value.info.chunkSize > 0
  {
  }

  lemma {:induction false} KeptTrans(k: Keyring, a: Aead, x: bytes, y: bytes, z: bytes)
    requires Kept(k, a, x, y) && Kept(k, a, y, z)
    ensures Kept(k, a, x, z)
  {
    hide OpenLayout, KeyIdOf;
  }

  lemma {:induction false} KeptSelf(k: Keyring, a: Aead, env: bytes)
    requires Opens(k, a, env)
    ensures Kept(k, a, env, env)
  {
    hide OpenLayout, KeyIdOf;
    OpenedBody(k, a, env);
  }

  // ----- Write-ahead log files: length, CRC-32 and envelope a frame -----

  const MAX_WAL_RECORD: nat := 67108864

  type Crc = bytes -> u32

  /** The envelopes of a log from `offset` on; a torn, damaged or plaintext frame is refused. */
  function WalFrames(crc: Crc, s: bytes, offset: nat): (r: Result<seq<bytes>>)
    requires offset <= |s|
    decreases |s| - offset
  {
    if offset == |s| then Ok([])
    else if offset + 8 > |s| then Err
    else
      var n := Get32(s, offset);
      var end := offset + 8 + n;
      :- Need(n <= MAX_WAL_RECORD && end <= |s|);
      var payload := s[offset + 8..end];
      :- Need(crc(payload) == Get32(s, offset + 4) && ParseHeader(payload).Ok?);
      var rest :- WalFrames(crc, s, end);
      Ok([payload] + rest)
  }

  /** Where frame `i` starts: the log positions other files refer to. */
  function WalOffset(frames: seq<bytes>, i: nat): nat
    requires i <= |frames|
  {
    if i == 0 then 0 else WalOffset(frames, i - 1) + 8 + |frames[i - 1]|
  }

  function RewrapFrames(k: Keyring, a: Aead, frames: seq<bytes>, nonces: nat -> bytes, i: nat): (r: Result<seq<bytes>>)
    requires k.Valid() && (forall j :: |nonces(j)| == 12) && i <= |frames|
    ensures r.Ok? ==> |r.value| == |frames| - i
    decreases |frames| - i
  {
    if i == |frames| then Ok([])
    else
      var rotated :- RewrapIfStale(k, a, frames[i], nonces(i));
      // Unreachable under a loaded keyring: see RewrapFramesKeep.
      :- Need(|rotated| == |frames[i]|);
      var rest :- RewrapFrames(k, a, frames, nonces, i + 1);
      Ok([rotated] + rest)
  }

  function WalFrame(crc: Crc, payload: bytes): bytes
    requires |payload| < U32_LIMIT
  {
    Put32(|payload|) + Put32(crc(payload)) + payload
  }

  function WalBytes(crc: Crc, frames: seq<bytes>): bytes
    requires forall i :: 0 <= i < |frames| ==> |frames[i]| < U32_LIMIT
  {
    if frames == [] then [] else WalFrame(crc, frames[0]) + WalBytes(crc, frames[1..])
  }

  function RewrapWal(k: Keyring, a: Aead, crc: Crc, s: bytes, nonces: nat -> bytes): Result<bytes>
    requires k.Valid() && forall j :: |nonces(j)| == 12
  {
    var frames :- WalFrames(crc, s, 0);
    var rotated :- RewrapFrames(k, a, frames, nonces, 0);
    if forall i :: 0 <= i < |rotated| ==> |rotated[i]| < U32_LIMIT then Ok(WalBytes(crc, rotated)) else Err
  }

  /** Frame for frame, what rotation keeps. */
  predicate FramesKept(k: Keyring, a: Aead, frames: seq<bytes>, frames': seq<bytes>) {
    |frames'| == |frames| && forall i :: 0 <= i < |frames| ==> Kept(k, a, frames[i], frames'[i])
  }

  predicate AllActive(k: Keyring, frames: seq<bytes>) {
    forall i :: 0 <= i < |frames| ==> KeyIdOf(frames[i]) == Some(k.active)
  }

  predicate AllOpen(k: Keyring, a: Aead, frames: seq<bytes>) {
    forall i :: 0 <= i < |frames| ==> Opens(k, a, frames[i])
  }

  /** Rewrapping never fails on frames the keyring opens: in particular the length test cannot. */
  lemma {:induction false} RewrapFramesKeep(k: Keyring, a: Aead, frames: seq<bytes>, nonces: nat -> bytes, i: nat)
    requires Lawful(a) && k.Valid() && (forall j :: |nonces(j)| == 12) && AllOpen(k, a, frames) && i <= |frames|
    ensures RewrapFrames(k, a, frames, nonces, i).Ok?
    ensures FramesKept(k, a, frames[i..], RewrapFrames(k, a, frames, nonces, i).value)
    ensures AllActive(k, RewrapFrames(k, a, frames, nonces, i).value)
    decreases |frames| - i
  {
    hide RewrapIfStale, KeyIdOf, Lawful, Opens, Kept;
    if i < |frames| {
      RewrapIfStaleKeeps(k, a, frames[i], nonces(i));
      var rotated := RewrapIfStale(k, a, frames[i], nonces(i)).value;
      assert |rotated| == |frames[i]| by { KeptLength(k, a, frames[i], rotated); }
      RewrapFramesKeep(k, a, frames, nonces, i + 1);
      assert frames[i..] == [frames[i]] + frames[i + 1..];
    }
  }

  lemma {:induction false} KeptLength(k: Keyring, a: Aead, env: bytes, env': bytes)
    requires Kept(k, a, env, env')
    ensures |env'| == |env| && PlaintextOf(k, a, env') == PlaintextOf(k, a, env)
  {
    hide OpenLayout, PlaintextOf;
    PlaintextUnchanged(k, a, env, env');
  }

  lemma {:induction false} WalFrameFacts(crc: Crc, s: bytes, offset: nat)
    requires offset <= |s| && WalFrames(crc, s, offset).Ok?
    ensures var frames := WalFrames(crc, s, offset).value;
      && (forall i :: 0 <= i < |frames| ==> |frames[i]| <= MAX_WAL_RECORD && ParseHeader(frames[i]).Ok?)
      && WalOffset(frames, |frames|) == |s| - offset
    decreases |s| - offset
  {
    hide FromLE, ParseHeader;
    if offset < |s| {
      var end := offset + 8 + Get32(s, offset);
      WalFrameFacts(crc, s, end);
      var rest := WalFrames(crc, s, end).value;
      OffsetCons(s[offset + 8..end], rest, |rest|);
    }
  }

  lemma {:induction false} OffsetCons(head: bytes, rest: seq<bytes>, i: nat)
    requires i <= |rest|
    ensures WalOffset([head] + rest, i + 1) == 8 + |head| + WalOffset(rest, i)
  {
    if i > 0 {
      OffsetCons(head, rest, i - 1);
    } else {
      assert WalOffset([head] + rest, 1) == WalOffset([head] + rest, 0) + 8 + |([head] + rest)[0]|;
    }
  }

  /** A written log reads back frame for frame. */
  lemma {:induction false} WalReads(crc: Crc, frames: seq<bytes>, s: bytes, offset: nat)
    requires forall i :: 0 <= i < |frames| ==> |frames[i]| <= MAX_WAL_RECORD && ParseHeader(frames[i]).Ok?
    requires offset <= |s| && s[offset..] == WalBytes(crc, frames)
    ensures WalFrames(crc, s, offset) == Ok(frames)
    decreases |frames|
  {
    hide FromLE, LE, ParseHeader, WalFrame, Get32;
    if frames != [] {
      FrameAt(crc, s, offset, frames[0], WalBytes(crc, frames[1..]));
      WalReads(crc, frames[1..], s, offset + 8 + |frames[0]|);
      assert frames == [frames[0]] + frames[1..];
    }
  }

  lemma {:induction false} FrameAt(crc: Crc, s: bytes, offset: nat, f: bytes, rest: bytes)
    requires |f| < U32_LIMIT && offset <= |s| && s[offset..] == WalFrame(crc, f) + rest
    ensures var end := offset + 8 + |f|;
      && end <= |s| && Get32(s, offset) == |f| && Get32(s, offset + 4) == crc(f)
      && s[offset + 8..end] == f && s[end..] == rest
  {
    hide FromLE, LE;
    var view := s[offset..|s|];
    assert view == s[offset..];
    SubSlice(s, offset, |s|, 0, 4);
    SubSlice(s, offset, |s|, 4, 8);
    SubSlice(s, offset, |s|, 8, 8 + |f|);
    SubSlice(s, offset, |s|, 8 + |f|, |view|);
    assert view[0..4] == Put32(|f|);
    assert view[4..8] == Put32(crc(f));
    assert view[8..8 + |f|] == f;
    assert view[8 + |f|..|view|] == rest;
  }

  lemma {:induction false} SameOffsets(frames: seq<bytes>, frames': seq<bytes>, i: nat)
    requires |frames'| == |frames| && i <= |frames|
    requires forall j :: 0 <= j < |frames| ==> |frames'[j]| == |frames[j]|
    ensures WalOffset(frames', i) == WalOffset(frames, i)
  {
    if i > 0 {
      SameOffsets(frames, frames', i - 1);
    }
  }

  /** Rotating a log: it succeeds, every frame keeps its offset and its plaintext, and only the active key is left. */
  lemma {:induction false} WalRotation(k: Keyring, a: Aead, crc: Crc, s: bytes, nonces: nat -> bytes)
    requires Lawful(a) && k.Valid() && forall j :: |nonces(j)| == 12
    requires WalFrames(crc, s, 0).Ok? && AllOpen(k, a, WalFrames(crc, s, 0).value)
    ensures RewrapWal(k, a, crc, s, nonces).Ok?
    ensures var s' := RewrapWal(k, a, crc, s, nonces).value;
      var frames := WalFrames(crc, s, 0).value;
      && WalFrames(crc, s', 0).Ok?
      && var frames' := WalFrames(crc, s', 0).value;
      && FramesKept(k, a, frames, frames') && AllActive(k, frames')
      && (forall i :: 0 <= i <= |frames| ==> WalOffset(frames', i) == WalOffset(frames, i))
      && |s'| == |s|
  {
    hide WalFrames, RewrapFrames, WalBytes, KeyIdOf, Lawful, Opens, Kept, ParseHeader;
    var frames := WalFrames(crc, s, 0).value;
    RewrapFramesKeep(k, a, frames, nonces, 0);
    assert frames[0..] == frames;
    var frames' := RewrapFrames(k, a, frames, nonces, 0).value;
    WalFrameFacts(crc, s, 0);
    forall i | 0 <= i < |frames| ensures |frames'[i]| == |frames[i]| && ParseHeader(frames'[i]).Ok? {
      KeptLength(k, a, frames[i], frames'[i]);
      ActiveParses(k, frames'[i]);
    }
    var s' := WalBytes(crc, frames');
    assert s'[0..] == s';
    WalReads(crc, frames', s', 0);
    WalFrameFacts(crc, s', 0);
    forall i | 0 <= i <= |frames| ensures WalOffset(frames', i) == WalOffset(frames, i) {
      SameOffsets(frames, frames', i);
    }
  }

  lemma {:induction false} ActiveParses(k: Keyring, env: bytes)
    requires KeyIdOf(env) == Some(k.active)
    ensures ParseHeader(env).Ok?
  {
  }

  lemma {:induction false} WalStep(crc: Crc, s: bytes, offset: nat, frames: seq<bytes>, i: nat)
    requires offset < |s| && i <= |frames| && WalFrames(crc, s, offset) == Ok(frames[i..])
    ensures offset + 8 <= |s|
    ensures var end := offset + 8 + Get32(s, offset);
      && end <= |s| && i < |frames| && Get32(s, offset) <= MAX_WAL_RECORD
      && frames[i] == s[offset + 8..end] && WalFrames(crc, s, end) == Ok(frames[i + 1..])
  {
    hide FromLE, ParseHeader;
    var tail := frames[i..];
    assert tail != [] && i < |frames|;
    assert tail[0] == frames[i] && tail[1..] == frames[i + 1..];
  }

  /** What is left to rotate after the first `i` frames became `done`. */
  ghost predicate Rotating(k: Keyring, a: Aead, frames: seq<bytes>, nonces: nat -> bytes, done: seq<bytes>)
    requires k.Valid() && forall j :: |nonces(j)| == 12
  {
    && |done| <= |frames|
    && (forall j :: 0 <= j < |done| ==> |done[j]| <= MAX_WAL_RECORD)
    && var rest := RewrapFrames(k, a, frames, nonces, |done|);
    RewrapFrames(k, a, frames, nonces, 0) == if rest.Ok? then Ok(done + rest.value) else Err
  }

  lemma {:induction false} RotatingStep(k: Keyring, a: Aead, frames: seq<bytes>, nonces: nat -> bytes, done: seq<bytes>)
    requires k.Valid() && (forall j :: |nonces(j)| == 12) && Rotating(k, a, frames, nonces, done)
    requires |done| < |frames| && |frames[|done|]| <= MAX_WAL_RECORD
    ensures var r := RewrapIfStale(k, a, frames[|done|], nonces(|done|));
      if r.Ok? && |r.value| == |frames[|done|]| then Rotating(k, a, frames, nonces, done + [r.value])
      else RewrapFrames(k, a, frames, nonces, 0).Err?
  {
    hide RewrapIfStale;
    var r := RewrapIfStale(k, a, frames[|done|], nonces(|done|));
    if r.Ok? && |r.value| == |frames[|done|]| {
      var rest := RewrapFrames(k, a, frames, nonces, |done| + 1);
      assert rest.Ok? ==> done + ([r.value] + rest.value) == (done + [r.value]) + rest.value;
    }
  }

  lemma {:induction false} RotatingStart(k: Keyring, a: Aead, frames: seq<bytes>, nonces: nat -> bytes)
    requires k.Valid() && forall j :: |nonces(j)| == 12
    ensures Rotating(k, a, frames, nonces, [])
  {
    var whole := RewrapFrames(k, a, frames, nonces, 0);
    assert whole.Ok? ==> [] + whole.value == whole.value;
  }

  lemma {:induction false} RotatingEnd(k: Keyring, a: Aead, frames: seq<bytes>, nonces: nat -> bytes, done: seq<bytes>)
    requires k.Valid() && (forall j :: |nonces(j)| == 12) && Rotating(k, a, frames, nonces, done) && |done| == |frames|
    ensures RewrapFrames(k, a, frames, nonces, 0) == Ok(done)
  {
    assert done + [] == done;
  }

  /** The byte loop over a log file. */
  method RewrapWalFrames(k: Keyring, a: Aead, crc: Crc, s: bytes, nonces: nat -> bytes) returns (r: Result<bytes>)
    requires k.Valid() && forall j :: |nonces(j)| == 12
    ensures r == RewrapWal(k, a, crc, s, nonces)
  {
    hide RewrapIfStale, FromLE, WalFrames, RewrapFrames, WalBytes, WalFrame, Rotating;
    var parsed := WalFrames(crc, s, 0);
    if parsed.Err? {
      return Err;
    }
    ghost var frames := parsed.value;
    assert frames[0..] == frames;
    RotatingStart(k, a, frames, nonces);
    var output: bytes := [];
    ghost var done: seq<bytes> := [];
    var offset, i := 0, 0;
    EmptyLog(crc);
    while offset < |s|
      invariant offset <= |s| && i == |done| <= |frames|
      invariant WalFrames(crc, s, offset) == Ok(frames[i..])
      invariant forall j :: 0 <= j < |done| ==> |done[j]| <= MAX_WAL_RECORD
      invariant output == WalBytes(crc, done) && Rotating(k, a, frames, nonces, done)
      decreases |s| - offset
    {
      WalStep(crc, s, offset, frames, i);
      var n := Get32(s, offset);
      var payload := s[offset + 8..offset + 8 + n];
      RotatingStep(k, a, frames, nonces, done);
      var rotated := RewrapIfStale(k, a, payload, nonces(i));
      if rotated.Err? || |rotated.value| != n {
        return Err;
      }
      WalBytesSnoc(crc, done, rotated.value);
      output := output + WalFrame(crc, rotated.value);
      done := done + [rotated.value];
      offset, i := offset + 8 + n, i + 1;
    }
    LogEnds(crc, s, frames, i);
    RotatingEnd(k, a, frames, nonces, done);
    return Ok(output);
  }

  lemma {:induction false} EmptyLog(crc: Crc)
    ensures WalBytes(crc, []) == []
  {
  }

  lemma {:induction false} LogEnds(crc: Crc, s: bytes, frames: seq<bytes>, i: nat)
    requires i <= |frames| && WalFrames(crc, s, |s|) == Ok(frames[i..])
    ensures i == |frames|
  {
  }

  lemma {:induction false} WalBytesSnoc(crc: Crc, frames: seq<bytes>, last: bytes)
    requires |last| < U32_LIMIT && forall i :: 0 <= i < |frames| ==> |frames[i]| < U32_LIMIT
    ensures WalBytes(crc, frames + [last]) == WalBytes(crc, frames) + WalFrame(crc, last)
  {
    hide WalFrame;
    if frames == [] {
      assert frames + [last] == [last] && [last][1..] == [];
    } else {
      assert (frames + [last])[1..] == frames[1..] + [last];
      WalBytesSnoc(crc, frames[1..], last);
    }
  }
}
