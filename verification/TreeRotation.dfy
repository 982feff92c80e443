/** Rotation of a whole tree (`rewrap_tree_resumable` in `encryption.rs`) as a
    state machine: begin or resume under the journal, rewrap files one by one,
    crash anywhere, finish. The logical digest is a parameter; here it only has to
    tell trees with different numbers of files apart. */
module TreeRotation {
  import opened Wrappers
  import opened Bytes
  import opened Envelope
  import opened KeyRotation

  datatype PersistedFile =
    | Sealed(env: bytes)
    | WalLog(content: bytes)
    | AuditLog(frames: seq<bytes>)
    | Bootstrap(content: bytes)
    | Plain(content: bytes)

  datatype Params = Params(k: Keyring, a: Aead, crc: Crc, digest: seq<bytes> -> nat)

  ghost predicate ParamsValid(p: Params) {
    Lawful(p.a) && p.k.Valid() && DigestTellsLengths(p)
  }

  /** Trees with different numbers of files have different digests. */
  ghost predicate DigestTellsLengths(p: Params) {
    forall x, y {:trigger p.digest(x), p.digest(y)} :: |x| != |y| ==> p.digest(x) != p.digest(y)
  }

  // ----- Files -----

  function Envelopes(p: Params, f: PersistedFile): seq<bytes> {
    match f
    case Sealed(env) => [env]
    case WalLog(content) => if WalFrames(p.crc, content, 0).Ok? then WalFrames(p.crc, content, 0).value else []
    case AuditLog(frames) => frames
    case Bootstrap(_) => []
    case Plain(_) => []
  }

  /** A file the final verification accepts. */
  predicate GoodFile(p: Params, f: PersistedFile) {
    && !f.Plain?
    && (f.WalLog? ==> WalFrames(p.crc, f.content, 0).Ok?)
    && (forall i :: 0 <= i < |Envelopes(p, f)| ==> GoodEnvelope(p, Envelopes(p, f)[i], f.Sealed?))
  }

  predicate GoodEnvelope(p: Params, env: bytes, whole: bool) {
    && Opens(p.k, p.a, env)
    && PlaintextOf(p.k, p.a, env).Ok?
    && (whole ==> Verified(p.a, OpenLayout(p.k, p.a, env).value, env).Ok?)
  }

  function Plaintexts(p: Params, frames: seq<bytes>): Result<seq<bytes>> {
    if frames == [] then Ok([])
    else
      var head :- PlaintextOf(p.k, p.a, frames[0]);
      var rest :- Plaintexts(p, frames[1..]);
      Ok([head] + rest)
  }

  /** Decoded log records with fresh lengths and checksums. */
  function WalRecords(p: Params, records: seq<bytes>): Result<bytes> {
    if records == [] then Ok([])
    else if |records[0]| >= U32_LIMIT then Err
    else
      var rest :- WalRecords(p, records[1..]);
      Ok(WalFrame(p.crc, records[0]) + rest)
  }

  function AuditLines(records: seq<bytes>): bytes {
    if records == [] then [] else records[0] + [10] + AuditLines(records[1..])
  }

  /** What the digest covers: the plaintext, never the wrapping. */
  function Canonical(p: Params, f: PersistedFile): Result<bytes> {
    match f
    case Sealed(env) => PlaintextOf(p.k, p.a, env)
    case WalLog(content) =>
      var frames :- WalFrames(p.crc, content, 0);
      var records :- Plaintexts(p, frames);
      WalRecords(p, records)
    case AuditLog(frames) =>
      var records :- Plaintexts(p, frames);
      Ok(AuditLines(records))
    case Bootstrap(content) => Ok(content)
    case Plain(content) => Ok(content)
  }

  function RewrapFile(p: Params, f: PersistedFile, nonces: nat -> bytes): Result<PersistedFile>
    requires p.k.Valid() && forall j :: |nonces(j)| == 12
  {
    match f
    case Sealed(env) =>
      var env' :- RewrapIfStale(p.k, p.a, env, nonces(0));
      Ok(Sealed(env'))
    case WalLog(content) =>
      var content' :- RewrapWal(p.k, p.a, p.crc, content, nonces);
      Ok(WalLog(content'))
    case AuditLog(frames) =>
      var frames' :- RewrapFrames(p.k, p.a, frames, nonces, 0);
      Ok(AuditLog(frames'))
    case Bootstrap(_) => Ok(f)
    case Plain(_) => Err
  }

  /** The same file but for the keys its envelopes are wrapped under; log frames have not moved. */
  predicate FileKept(p: Params, f: PersistedFile, f': PersistedFile) {
    && (f.Sealed? == f'.Sealed? && f.WalLog? == f'.WalLog? && f.AuditLog? == f'.AuditLog?)
    && (f.Bootstrap? || f.Plain? ==> f' == f)
    && (f.WalLog? && f'.WalLog? ==>
           && WalFrames(p.crc, f.content, 0).Ok?
           && WalFrames(p.crc, f'.content, 0).Ok?
           && |f'.content| == |f.content|)
    && FramesKept(p.k, p.a, Envelopes(p, f), Envelopes(p, f'))
  }

  predicate OnlyActive(p: Params, f: PersistedFile) {
    AllActive(p.k, Envelopes(p, f))
  }

  // ----- One file -----

  lemma {:induction false} FramesKeptTrans(k: Keyring, a: Aead, x: seq<bytes>, y: seq<bytes>, z: seq<bytes>)
    requires FramesKept(k, a, x, y) && FramesKept(k, a, y, z)
    ensures FramesKept(k, a, x, z)
  {
    hide Kept;
    forall i | 0 <= i < |x| ensures Kept(k, a, x[i], z[i]) {
      KeptTrans(k, a, x[i], y[i], z[i]);
    }
  }

  lemma {:induction false} FileKeptTrans(p: Params, x: PersistedFile, y: PersistedFile, z: PersistedFile)
    requires FileKept(p, x, y) && FileKept(p, y, z)
    ensures FileKept(p, x, z)
  {
    hide FramesKept, WalFrames, Envelopes;
    FramesKeptTrans(p.k, p.a, Envelopes(p, x), Envelopes(p, y), Envelopes(p, z));
  }

  lemma {:induction false} FileKeptSelf(p: Params, f: PersistedFile)
    requires GoodFile(p, f)
    ensures FileKept(p, f, f)
  {
    hide WalFrames, Kept, Opens, PlaintextOf, Verified;
    forall i | 0 <= i < |Envelopes(p, f)| ensures Kept(p.k, p.a, Envelopes(p, f)[i], Envelopes(p, f)[i]) {
      KeptSelf(p.k, p.a, Envelopes(p, f)[i]);
    }
  }

  lemma {:induction false} PlaintextsKept(p: Params, frames: seq<bytes>, frames': seq<bytes>)
    requires FramesKept(p.k, p.a, frames, frames')
    ensures Plaintexts(p, frames') == Plaintexts(p, frames)
  {
    hide Kept, PlaintextOf;
    if frames != [] {
      KeptLength(p.k, p.a, frames[0], frames'[0]);
      PlaintextsKept(p, frames[1..], frames'[1..]);
    }
  }

  /** The digest cannot see a rewrapping. */
  lemma {:induction false} CanonicalKept(p: Params, f: PersistedFile, f': PersistedFile)
    requires FileKept(p, f, f')
    ensures Canonical(p, f') == Canonical(p, f)
  {
    hide FramesKept, WalFrames, PlaintextOf, Plaintexts;
    PlaintextsKept(p, Envelopes(p, f), Envelopes(p, f'));
    if f.Sealed? {
      SealedKept(p, f.env, f'.env);
    }
  }

  lemma {:induction false} SealedKept(p: Params, env: bytes, env': bytes)
    requires FramesKept(p.k, p.a, [env], [env'])
    ensures Kept(p.k, p.a, env, env') && PlaintextOf(p.k, p.a, env') == PlaintextOf(p.k, p.a, env)
  {
    hide Kept, PlaintextOf;
    assert Kept(p.k, p.a, [env][0], [env'][0]);
    KeptLength(p.k, p.a, env, env');
  }

  lemma {:induction false} GoodEnvelopeKept(p: Params, env: bytes, env': bytes, whole: bool)
    requires GoodEnvelope(p, env, whole) && Kept(p.k, p.a, env, env')
    ensures GoodEnvelope(p, env', whole)
  {
    hide OpenLayout, PlaintextOf, Verified, KeyIdOf;
    KeptLength(p.k, p.a, env, env');
    if whole {
      OpenedBody(p.k, p.a, env);
      VerifiedUnchanged(p.a, OpenLayout(p.k, p.a, env).value, OpenLayout(p.k, p.a, env').value, env, env');
    }
  }

  lemma {:induction false} GoodKept(p: Params, f: PersistedFile, f': PersistedFile)
    requires GoodFile(p, f) && FileKept(p, f, f')
    ensures GoodFile(p, f')
  {
    hide WalFrames, Kept, GoodEnvelope, Envelopes;
    forall i | 0 <= i < |Envelopes(p, f')| ensures GoodEnvelope(p, Envelopes(p, f')[i], f'.Sealed?) {
      GoodEnvelopeKept(p, Envelopes(p, f)[i], Envelopes(p, f')[i], f.Sealed?);
    }
  }

  /** Rewrapping a good file succeeds, keeps it, and leaves only the active key in it. */
  lemma {:induction false} RewrapFileKeeps(p: Params, f: PersistedFile, nonces: nat -> bytes)
    requires ParamsValid(p) && GoodFile(p, f) && forall j :: |nonces(j)| == 12
    ensures RewrapFile(p, f, nonces).Ok?
    ensures FileKept(p, f, RewrapFile(p, f, nonces).value) && OnlyActive(p, RewrapFile(p, f, nonces).value)
  {
    hide WalFrames, Kept, KeyIdOf, RewrapIfStale, RewrapWal, RewrapFrames, Lawful, Opens, PlaintextOf, Verified;
    var frames := Envelopes(p, f);
    assert AllOpen(p.k, p.a, frames) by {
      forall i | 0 <= i < |frames| ensures Opens(p.k, p.a, frames[i]) {
        assert GoodEnvelope(p, frames[i], f.Sealed?);
      }
    }
    match f
    case Sealed(env) =>
      assert Opens(p.k, p.a, frames[0]);
      RewrapIfStaleKeeps(p.k, p.a, env, nonces(0));
    case WalLog(content) => WalRotation(p.k, p.a, p.crc, content, nonces);
    case AuditLog(list) =>
      RewrapFramesKeep(p.k, p.a, list, nonces, 0);
      assert list[0..] == list;
    case Bootstrap(_) =>
  }

  // ----- The tree -----

  datatype Journal = Journal(active: bytes, digest: nat)

  /** `leftovers` are temporary files a crash left between their creation and their renaming. Their names end
      in `.tmp`, so each is read as one envelope if it starts like one and as plaintext if not. */
  datatype State = State(tree: seq<PersistedFile>, leftovers: seq<PersistedFile>, journal: Option<Journal>,
    running: bool)

  /** The last three are crashes: between two writes, while the journal is being written, and while a file is. */
  datatype Step =
    | Begin
    | RewrapAt(i: nat, nonces: nat -> bytes)
    | Finish
    | Crash
    | CrashInJournal(written: bytes)
    | CrashInWrite(temporary: PersistedFile)

  function Canonicals(p: Params, files: seq<PersistedFile>): Result<seq<bytes>> {
    if files == [] then Ok([])
    else
      var head :- Canonical(p, files[0]);
      var rest :- Canonicals(p, files[1..]);
      Ok([head] + rest)
  }

  function LogicalDigest(p: Params, s: State): Result<nat> {
    var contents :- Canonicals(p, s.tree + s.leftovers);
    Ok(p.digest(contents))
  }

  /** Compute the digest, then match the journal or write one. */
  function BeginStep(p: Params, s: State): Result<State> {
    var digest :- LogicalDigest(p, s);
    match s.journal
    case Some(j) =>
      :- Need(j == Journal(p.k.active, digest));
      Ok(s.(running := true))
    case None => Ok(s.(journal := Some(Journal(p.k.active, digest)), running := true))
  }

  function KeyIds(p: Params, files: seq<PersistedFile>): set<Option<bytes>> {
    set i, j | 0 <= i < |files| && 0 <= j < |Envelopes(p, files[i])| :: KeyIdOf(Envelopes(p, files[i])[j])
  }

  /** Verify every file, compare the digest, insist that exactly the active key is referenced, drop the journal. */
  function FinishStep(p: Params, s: State): Result<State> {
    var files := s.tree + s.leftovers;
    :- Need(forall i :: 0 <= i < |files| ==> GoodFile(p, files[i]));
    var digest :- LogicalDigest(p, s);
    :- Need(s.journal == Some(Journal(p.k.active, digest)));
    :- Need(KeyIds(p, files) == {Some(p.k.active)});
    Ok(s.(journal := None, running := false))
  }

  ghost predicate NoncesValid(nonces: nat -> bytes) {
    forall j :: |nonces(j)| == 12
  }

  /** The walk visits temporary files as it visits the others. */
  ghost function RewrapStep(p: Params, s: State, i: nat, nonces: nat -> bytes): Result<State>
    requires p.k.Valid() && NoncesValid(nonces) && i < |s.tree + s.leftovers|
  {
    var f :- RewrapFile(p, (s.tree + s.leftovers)[i], nonces);
    Ok(if i < |s.tree| then s.(tree := s.tree[i := f]) else s.(leftovers := s.leftovers[i - |s.tree| := f]))
  }

  /** A rotation that is refused stops where it is. */
  function Settle(s: State, r: Result<State>): State {
    if r.Ok? then r.value else s.(running := false)
  }

  ghost function Apply(p: Params, s: State, step: Step): Option<State>
    requires p.k.Valid()
  {
    match step
    case Begin => if s.running then None else Some(Settle(s, BeginStep(p, s)))
    case RewrapAt(i, nonces) =>
      if s.running && i < |s.tree + s.leftovers| && NoncesValid(nonces)
      then Some(Settle(s, RewrapStep(p, s, i, nonces))) else None
    case Finish => if s.running then Some(Settle(s, FinishStep(p, s))) else None
    case Crash => Some(s.(running := false))
    case CrashInJournal(written) =>
      if !s.running && s.journal.None? && LogicalDigest(p, s).Ok?
      then Some(s.(leftovers := s.leftovers + [Plain(written)])) else None
    case CrashInWrite(temporary) =>
      if s.running && (temporary.Sealed? || temporary.Plain?)
      then Some(s.(running := false, leftovers := s.leftovers + [temporary])) else None
  }

  ghost function Run(p: Params, s: State, steps: seq<Step>): Option<State>
    requires p.k.Valid()
    decreases |steps|
  {
    if steps == [] then Some(s)
    else
      match Apply(p, s, steps[0])
      case None => None
      case Some(next) => Run(p, next, steps[1..])
  }

  lemma {:induction false} RunConcat(p: Params, s: State, a: seq<Step>, b: seq<Step>)
    requires p.k.Valid()
    ensures Run(p, s, a + b) == if Run(p, s, a).Some? then Run(p, Run(p, s, a).value, b) else None
    decreases |a|
  {
    hide Apply;
    if a == [] {
      assert a + b == b;
    } else {
      assert (a + b)[0] == a[0] && (a + b)[1..] == a[1..] + b;
      if Apply(p, s, a[0]).Some? {
        RunConcat(p, Apply(p, s, a[0]).value, a[1..], b);
      }
    }
  }

  lemma {:induction false} RunStep(p: Params, s: State, step: Step)
    requires p.k.Valid()
    ensures Run(p, s, [step]) == Apply(p, s, step)
  {
    hide Apply;
    var steps := [step];
    assert steps[1..] == [];
    if Apply(p, s, step).Some? {
      assert Run(p, Apply(p, s, step).value, steps[1..]) == Apply(p, s, step);
    }
  }

  // ----- Good files can be digested -----

  lemma {:induction false} DecryptedLength(a: Aead, l: Layout, file: bytes, offset: nat, index: nat, room: int)
    requires Lawful(a) && offset <= |file| && DecryptFrom(a, l, file, offset, index, room).Ok?
    ensures |DecryptFrom(a, l, file, offset, index, room).value| <= |file| - offset
    decreases |file| - offset
  {
    hide FromLE, Lawful;
    if offset < |file| {
      var n := Get32(file, offset);
      var end := offset + 4 + n;
      var chunk := OpenChunk(a, l, index, file[offset + 4..end]).value;
      ChunkShorter(a, l, index, file[offset + 4..end]);
      DecryptedLength(a, l, file, end, index + 1, room - |chunk|);
    }
  }

  lemma {:induction false} ChunkShorter(a: Aead, l: Layout, index: nat, sealed: bytes)
    requires Lawful(a) && index <= U32_MAX && OpenChunk(a, l, index, sealed).Some?
    ensures |OpenChunk(a, l, index, sealed).value| <= |sealed|
  {
  }

  /** A plaintext is no longer than its envelope. */
  lemma {:induction false} PlaintextShorter(p: Params, env: bytes)
    requires Lawful(p.a) && PlaintextOf(p.k, p.a, env).Ok?
    ensures |PlaintextOf(p.k, p.a, env).value| <= |env|
  {
    hide Lawful, DecryptFrom, OpenLayout;
    var l := OpenLayout(p.k, p.a, env).value;
    BodyInside(p, env);
    DecryptedLength(p.a, l, env, l.bodyOffset, 0, l.info.plainLen);
  }

  lemma {:induction false} BodyInside(p: Params, env: bytes)
    requires OpenLayout(p.k, p.a, env).Ok?
    ensures OpenLayout(p.k, p.a, env).value.bodyOffset <= |env|
  {
    OpenedBody(p.k, p.a, env);
  }

  lemma {:induction false} FramesSmall(crc: Crc, s: bytes, offset: nat)
    requires offset <= |s| && WalFrames(crc, s, offset).Ok?
    ensures forall i :: 0 <= i < |WalFrames(crc, s, offset).value| ==>
      |WalFrames(crc, s, offset).value[i]| <= MAX_WAL_RECORD
    decreases |s| - offset
  {
    hide FromLE, ParseHeader;
    if offset < |s| {
      FramesSmall(crc, s, offset + 8 + Get32(s, offset));
    }
  }

  lemma {:induction false} FramesDecrypt(p: Params, frames: seq<bytes>)
    requires Lawful(p.a) && forall i :: 0 <= i < |frames| ==> PlaintextOf(p.k, p.a, frames[i]).Ok?
    ensures Plaintexts(p, frames).Ok? && |Plaintexts(p, frames).value| == |frames|
    ensures forall i :: 0 <= i < |frames| ==> |Plaintexts(p, frames).value[i]| <= |frames[i]|
  {
    hide PlaintextOf, Lawful;
    if frames != [] {
      FramesDecrypt(p, frames[1..]);
      PlaintextShorter(p, frames[0]);
    }
  }

  lemma {:induction false} RecordsEncode(p: Params, records: seq<bytes>)
    requires forall i :: 0 <= i < |records| ==> |records[i]| < U32_LIMIT
    ensures WalRecords(p, records).Ok?
  {
    if records != [] {
      RecordsEncode(p, records[1..]);
    }
  }

  /** Whatever the final verification accepts has a place in the digest. */
  lemma {:induction false} GoodIsDigestible(p: Params, f: PersistedFile)
    requires ParamsValid(p) && GoodFile(p, f)
    ensures Canonical(p, f).Ok?
  {
    hide WalFrames, PlaintextOf, Plaintexts, WalRecords, Lawful, DigestTellsLengths, Opens, Verified;
    var frames := Envelopes(p, f);
    forall i | 0 <= i < |frames| ensures PlaintextOf(p.k, p.a, frames[i]).Ok? {
      assert GoodEnvelope(p, frames[i], f.Sealed?);
    }
    FramesDecrypt(p, frames);
    match f
    case Sealed(env) => assert PlaintextOf(p.k, p.a, frames[0]).Ok?;
    case WalLog(content) =>
      FramesSmall(p.crc, content, 0);
      RecordsEncode(p, Plaintexts(p, frames).value);
    case AuditLog(_) =>
    case Bootstrap(_) =>
  }

  lemma {:induction false} TreeIsDigestible(p: Params, files: seq<PersistedFile>)
    requires ParamsValid(p) && forall i :: 0 <= i < |files| ==> GoodFile(p, files[i]) || files[i].Plain?
    ensures Canonicals(p, files).Ok? && |Canonicals(p, files).value| == |files|
  {
    hide GoodFile, Lawful, DigestTellsLengths;
    if files != [] {
      if GoodFile(p, files[0]) {
        GoodIsDigestible(p, files[0]);
      }
      TreeIsDigestible(p, files[1..]);
    }
  }

  // ----- The invariant of a rotation that started from the tree `origin` -----

  ghost predicate TreeKept(p: Params, origin: seq<PersistedFile>, tree: seq<PersistedFile>) {
    |tree| == |origin| && forall i :: 0 <= i < |origin| ==> FileKept(p, origin[i], tree[i])
  }

  ghost predicate AllGood(p: Params, files: seq<PersistedFile>) {
    forall i :: 0 <= i < |files| ==> GoodFile(p, files[i])
  }

  predicate AllPlain(files: seq<PersistedFile>) {
    forall i :: 0 <= i < |files| ==> files[i].Plain?
  }

  /** The journal was written when the first `n` leftovers were there, all from writing the journal itself. */
  ghost predicate Journaled(p: Params, origin: seq<PersistedFile>, s: State, n: nat) {
    && n <= |s.leftovers| && AllPlain(s.leftovers[..n])
    && s.journal == Some(Journal(p.k.active, p.digest(Contents(p, origin + s.leftovers[..n]))))
    && (s.running ==> n == |s.leftovers|)
  }

  function Contents(p: Params, files: seq<PersistedFile>): seq<bytes> {
    if Canonicals(p, files).Ok? then Canonicals(p, files).value else []
  }

  ghost predicate Rotating(p: Params, origin: seq<PersistedFile>, s: State) {
    && AllGood(p, origin) && TreeKept(p, origin, s.tree)
    && (s.journal.None? ==> !s.running && AllPlain(s.leftovers))
    && (s.journal.Some? ==> exists n: nat :: Journaled(p, origin, s, n))
  }

  lemma {:induction false} CanonicalsKept(
    p: Params, origin: seq<PersistedFile>, tree: seq<PersistedFile>, rest: seq<PersistedFile>)
    requires TreeKept(p, origin, tree)
    ensures Canonicals(p, tree + rest) == Canonicals(p, origin + rest)
  {
    hide FileKept, Canonical;
    if origin != [] {
      CanonicalKept(p, origin[0], tree[0]);
      CanonicalsKept(p, origin[1..], tree[1..], rest);
      assert (tree + rest)[0] == tree[0] && (tree + rest)[1..] == tree[1..] + rest;
      assert (origin + rest)[0] == origin[0] && (origin + rest)[1..] == origin[1..] + rest;
    }
  }

  /** The digest of a state, seen from the tree the rotation started with. */
  lemma {:induction false} DigestSeen(p: Params, origin: seq<PersistedFile>, s: State)
    requires TreeKept(p, origin, s.tree)
    ensures LogicalDigest(p, s).Ok? == Canonicals(p, origin + s.leftovers).Ok?
    ensures LogicalDigest(p, s).Ok? ==> LogicalDigest(p, s).value == p.digest(Contents(p, origin + s.leftovers))
  {
    hide TreeKept, Canonicals;
    CanonicalsKept(p, origin, s.tree, s.leftovers);
  }

  lemma {:induction false} OriginDigestible(p: Params, origin: seq<PersistedFile>, rest: seq<PersistedFile>)
    requires ParamsValid(p) && AllGood(p, origin) && AllPlain(rest)
    ensures Canonicals(p, origin + rest).Ok? && |Contents(p, origin + rest)| == |origin| + |rest|
  {
    hide GoodFile, Lawful, DigestTellsLengths, Canonicals;
    TreeIsDigestible(p, origin + rest);
  }

  lemma {:induction false} CanonicalsLength(p: Params, files: seq<PersistedFile>)
    requires Canonicals(p, files).Ok?
    ensures |Canonicals(p, files).value| == |files|
  {
    if files != [] {
      CanonicalsLength(p, files[1..]);
    }
  }

  /** A run goes on under a journal only if nothing was left behind since the journal was written. */
  lemma {:induction false} BeginMeans(p: Params, origin: seq<PersistedFile>, s: State)
    requires ParamsValid(p) && Rotating(p, origin, s) && !s.running
    ensures s.journal.None? ==> BeginStep(p, s).Ok?
    ensures s.journal.Some? ==> (BeginStep(p, s).Ok? <==> Journaled(p, origin, s, |s.leftovers|))
    ensures BeginStep(p, s).Ok? ==> Journaled(p, origin, BeginStep(p, s).value, |s.leftovers|)
  {
    hide GoodFile, TreeKept, Canonicals, AllGood, Lawful;
    DigestSeen(p, origin, s);
    assert s.leftovers[..|s.leftovers|] == s.leftovers;
    if s.journal.None? {
      OriginDigestible(p, origin, s.leftovers);
    } else {
      var n: nat :| Journaled(p, origin, s, n);
      OriginDigestible(p, origin, s.leftovers[..n]);
      if AllPlain(s.leftovers) {
        OriginDigestible(p, origin, s.leftovers);
      }
      if Canonicals(p, origin + s.leftovers).Ok? {
        CanonicalsLength(p, origin + s.leftovers);
        assert |Contents(p, origin + s.leftovers)| == |origin| + |s.leftovers|;
      }
    }
  }

  lemma {:induction false} RewrapAtKeeps(
    p: Params, origin: seq<PersistedFile>, tree: seq<PersistedFile>, i: nat, nonces: nat -> bytes)
    requires ParamsValid(p) && NoncesValid(nonces) && TreeKept(p, origin, tree) && i < |origin|
      && GoodFile(p, origin[i])
    ensures RewrapFile(p, tree[i], nonces).Ok? && OnlyActive(p, RewrapFile(p, tree[i], nonces).value)
    ensures TreeKept(p, origin, tree[i := RewrapFile(p, tree[i], nonces).value])
  {
    hide GoodFile, FileKept, RewrapFile, Lawful, OnlyActive;
    GoodKept(p, origin[i], tree[i]);
    RewrapFileKeeps(p, tree[i], nonces);
    FileKeptTrans(p, origin[i], tree[i], RewrapFile(p, tree[i], nonces).value);
  }

  /** While a rotation runs, rewrapping a file of the tree succeeds and visiting a leftover is refused. */
  lemma {:induction false} RewrapMeans(p: Params, origin: seq<PersistedFile>, s: State, i: nat, nonces: nat -> bytes)
    requires ParamsValid(p) && Rotating(p, origin, s) && s.running && NoncesValid(nonces) && i < |s.tree + s.leftovers|
    ensures RewrapStep(p, s, i, nonces).Ok? <==> i < |s.tree|
    ensures i < |s.tree| ==>
      && var s' := RewrapStep(p, s, i, nonces).value;
      && TreeKept(p, origin, s'.tree) && s' == s.(tree := s.tree[i := s'.tree[i]]) && OnlyActive(p, s'.tree[i])
  {
    hide GoodFile, FileKept, Lawful, OnlyActive, Canonicals, NoncesValid;
    if i < |s.tree| {
      assert (s.tree + s.leftovers)[i] == s.tree[i];
      RewrapAtKeeps(p, origin, s.tree, i, nonces);
    } else {
      var n: nat :| Journaled(p, origin, s, n);
      assert s.leftovers[..n] == s.leftovers;
      assert (s.tree + s.leftovers)[i] == s.leftovers[i - |s.tree|];
    }
  }

  /** Every step keeps the rotation's invariant. */
  lemma {:induction false} StepKeeps(p: Params, origin: seq<PersistedFile>, s: State, step: Step)
    requires ParamsValid(p) && Rotating(p, origin, s) && Apply(p, s, step).Some?
    ensures Rotating(p, origin, Apply(p, s, step).value)
  {
    hide AllGood, TreeKept, RewrapStep, BeginStep, FinishStep, LogicalDigest, Lawful, Contents, NoncesValid;
    var s' := Apply(p, s, step).value;
    match step
    case Begin => BeginKeeps(p, origin, s);
    case RewrapAt(i, nonces) => RewrapKeepsRotating(p, origin, s, i, nonces);
    case Finish => FinishKeeps(p, origin, s);
    case Crash => StopKeeps(p, origin, s);
    case CrashInJournal(written) =>
    case CrashInWrite(temporary) =>
      var n: nat :| Journaled(p, origin, s, n);
      assert s'.leftovers[..n] == s.leftovers[..n];
      assert Journaled(p, origin, s', n);
  }

  lemma {:induction false} StopKeeps(p: Params, origin: seq<PersistedFile>, s: State)
    requires Rotating(p, origin, s)
    ensures Rotating(p, origin, s.(running := false))
  {
    hide AllGood, TreeKept, Contents;
    if s.journal.Some? {
      var n: nat :| Journaled(p, origin, s, n);
      assert Journaled(p, origin, s.(running := false), n);
    }
  }

  lemma {:induction false} BeginKeeps(p: Params, origin: seq<PersistedFile>, s: State)
    requires ParamsValid(p) && Rotating(p, origin, s) && !s.running
    ensures Rotating(p, origin, Settle(s, BeginStep(p, s)))
  {
    hide AllGood, TreeKept, LogicalDigest, Lawful, Journaled, DigestTellsLengths;
    BeginMeans(p, origin, s);
    StopKeeps(p, origin, s);
  }

  lemma {:induction false} RewrapKeepsRotating(
    p: Params, origin: seq<PersistedFile>, s: State, i: nat, nonces: nat -> bytes)
    requires ParamsValid(p) && Rotating(p, origin, s) && s.running && NoncesValid(nonces) && i < |s.tree + s.leftovers|
    ensures Rotating(p, origin, Settle(s, RewrapStep(p, s, i, nonces)))
  {
    hide AllGood, TreeKept, RewrapStep, Lawful, Contents, NoncesValid, DigestTellsLengths, OnlyActive;
    RewrapMeans(p, origin, s, i, nonces);
    StopKeeps(p, origin, s);
    if i < |s.tree| {
      var s' := RewrapStep(p, s, i, nonces).value;
      var n: nat :| Journaled(p, origin, s, n);
      assert Journaled(p, origin, s', n);
    }
  }

  lemma {:induction false} FinishKeeps(p: Params, origin: seq<PersistedFile>, s: State)
    requires Rotating(p, origin, s) && s.running
    ensures Rotating(p, origin, Settle(s, FinishStep(p, s)))
  {
    hide AllGood, TreeKept, LogicalDigest, GoodFile, KeyIds, Contents;
    StopKeeps(p, origin, s);
    var n: nat :| Journaled(p, origin, s, n);
    assert s.leftovers[..n] == s.leftovers;
  }

  lemma {:induction false} RunKeeps(p: Params, origin: seq<PersistedFile>, s: State, steps: seq<Step>)
    requires ParamsValid(p) && Rotating(p, origin, s) && Run(p, s, steps).Some?
    ensures Rotating(p, origin, Run(p, s, steps).value)
    decreases |steps|
  {
    hide Rotating, Apply;
    if steps != [] {
      StepKeeps(p, origin, s, steps[0]);
      RunKeeps(p, origin, Apply(p, s, steps[0]).value, steps[1..]);
    }
  }

  function Start(tree: seq<PersistedFile>): State {
    State(tree, [], None, false)
  }

  lemma {:induction false} StartRotating(p: Params, origin: seq<PersistedFile>)
    requires AllGood(p, origin)
    ensures Rotating(p, origin, Start(origin))
  {
    hide GoodFile, FileKept;
    forall i | 0 <= i < |origin| ensures FileKept(p, origin[i], origin[i]) {
      FileKeptSelf(p, origin[i]);
    }
  }

  /** However often a rotation is interrupted, every file keeps its plaintext, its length and its frames. */
  lemma {:induction false} RotationKeeps(p: Params, origin: seq<PersistedFile>, steps: seq<Step>)
    requires ParamsValid(p) && AllGood(p, origin) && Run(p, Start(origin), steps).Some?
    ensures var s := Run(p, Start(origin), steps).value;
      && TreeKept(p, origin, s.tree)
      && Canonicals(p, s.tree) == Canonicals(p, origin)
  {
    hide Run, TreeKept, AllGood, Canonicals;
    StartRotating(p, origin);
    RunKeeps(p, origin, Start(origin), steps);
    var tree := Run(p, Start(origin), steps).value.tree;
    CanonicalsKept(p, origin, tree, []);
    assert tree + [] == tree && origin + [] == origin;
  }

  // ----- The end of a rotation -----

  /** Some file of the tree holds an envelope. */
  predicate HasEnvelope(p: Params, tree: seq<PersistedFile>) {
    exists i :: 0 <= i < |tree| && Envelopes(p, tree[i]) != []
  }

  lemma {:induction false} ActiveIds(p: Params, tree: seq<PersistedFile>)
    requires forall i :: 0 <= i < |tree| ==> OnlyActive(p, tree[i])
    ensures KeyIds(p, tree) <= {Some(p.k.active)}
    ensures KeyIds(p, tree) == {Some(p.k.active)} <==> HasEnvelope(p, tree)
  {
    hide Envelopes, KeyIdOf;
    forall id | id in KeyIds(p, tree) ensures id == Some(p.k.active) {
      var i, j :| 0 <= i < |tree| && 0 <= j < |Envelopes(p, tree[i])| && id == KeyIdOf(Envelopes(p, tree[i])[j]);
      assert OnlyActive(p, tree[i]);
    }
    if HasEnvelope(p, tree) {
      var i :| 0 <= i < |tree| && Envelopes(p, tree[i]) != [];
      assert KeyIdOf(Envelopes(p, tree[i])[0]) in KeyIds(p, tree);
    }
    if KeyIds(p, tree) == {Some(p.k.active)} {
      assert Some(p.k.active) in KeyIds(p, tree);
      var i, j :| 0 <= i < |tree| && 0 <= j < |Envelopes(p, tree[i])|
        && Some(p.k.active) == KeyIdOf(Envelopes(p, tree[i])[j]);
    }
  }

  /** Once every file has been rewrapped and nothing was left behind, the last checks pass if and only if the
      tree holds an envelope at all. */
  lemma {:induction false} FinishExact(p: Params, origin: seq<PersistedFile>, s: State)
    requires ParamsValid(p) && Rotating(p, origin, s) && s.running && s.leftovers == []
    requires forall i :: 0 <= i < |s.tree| ==> OnlyActive(p, s.tree[i])
    ensures FinishStep(p, s).Ok? <==> HasEnvelope(p, origin)
    ensures FinishStep(p, s).Ok? ==> KeyIds(p, s.tree) == {Some(p.k.active)}
  {
    hide GoodFile, OnlyActive, Canonicals, KeyIds, Lawful, FileKept;
    DigestSeen(p, origin, s);
    OriginDigestible(p, origin, []);
    var n: nat :| Journaled(p, origin, s, n);
    assert s.leftovers[..n] == [];
    assert s.tree + s.leftovers == s.tree;
    forall i | 0 <= i < |s.tree| ensures GoodFile(p, s.tree[i]) {
      GoodKept(p, origin[i], s.tree[i]);
    }
    ActiveIds(p, s.tree);
    EnvelopesStay(p, origin, s.tree);
  }

  lemma {:induction false} EnvelopesStay(p: Params, origin: seq<PersistedFile>, tree: seq<PersistedFile>)
    requires TreeKept(p, origin, tree)
    ensures HasEnvelope(p, tree) <==> HasEnvelope(p, origin)
  {
    hide Envelopes, Kept, WalFrames;
    assert forall i :: 0 <= i < |origin| ==> FileKept(p, origin[i], tree[i]);
  }

  // ----- A rerun -----

  /** The walk over the files, in the order the directories list them. */
  function Walk(order: seq<nat>, nonces: nat -> (nat -> bytes)): (steps: seq<Step>)
    ensures |steps| == |order| && forall i :: 0 <= i < |order| ==> steps[i] == RewrapAt(order[i], nonces(i))
  {
    seq(|order|, i requires 0 <= i < |order| => RewrapAt(order[i], nonces(i)))
  }

  function RerunSteps(order: seq<nat>, nonces: nat -> (nat -> bytes)): seq<Step> {
    [Begin] + Walk(order, nonces) + [Finish]
  }

  /** Every file is visited, and nothing else. */
  predicate Visits(order: seq<nat>, n: nat) {
    (forall i :: 0 <= i < n ==> i in order) && forall i :: 0 <= i < |order| ==> order[i] < n
  }

  ghost predicate AllNoncesValid(nonces: nat -> (nat -> bytes)) {
    forall i :: NoncesValid(nonces(i))
  }

  /** The rerun came to its end and removed the journal. */
  ghost predicate Completes(p: Params, s: State, steps: seq<Step>)
    requires p.k.Valid()
  {
    Run(p, s, steps).Some? && Run(p, s, steps).value.journal.None?
  }

  /** A visit to file `i` of a tree without leftovers succeeds and changes that file only. */
  lemma {:induction false} Visit(p: Params, origin: seq<PersistedFile>, s: State, i: nat, nonces: nat -> bytes)
    requires ParamsValid(p) && Rotating(p, origin, s) && s.running && s.leftovers == [] && NoncesValid(nonces)
    requires i < |s.tree|
    ensures var next := Apply(p, s, RewrapAt(i, nonces));
      && next.Some? && Rotating(p, origin, next.value) && next.value.running && next.value.leftovers == []
      && |next.value.tree| == |s.tree| && OnlyActive(p, next.value.tree[i])
      && next.value.tree == s.tree[i := next.value.tree[i]]
  {
    hide Rotating, RewrapStep, OnlyActive, NoncesValid, Lawful, DigestTellsLengths, TreeKept;
    assert s.tree + s.leftovers == s.tree;
    RewrapMeans(p, origin, s, i, nonces);
    StepKeeps(p, origin, s, RewrapAt(i, nonces));
  }

  /** The files at the first `k` places of the walk are sealed for the active key alone. */
  ghost predicate Visited(p: Params, tree: seq<PersistedFile>, order: seq<nat>, k: nat) {
    forall i :: 0 <= i < k && i < |order| && order[i] < |tree| ==> OnlyActive(p, tree[order[i]])
  }

  /** The walk from position `k` on leaves the active key alone in every file it visits. */
  lemma {:induction false} WalkCovers(
    p: Params, origin: seq<PersistedFile>, s: State, order: seq<nat>, nonces: nat -> (nat -> bytes), k: nat)
    requires ParamsValid(p) && Rotating(p, origin, s) && s.running && s.leftovers == [] && AllNoncesValid(nonces)
    requires k <= |order| && (forall i :: 0 <= i < |order| ==> order[i] < |s.tree|)
    requires Visited(p, s.tree, order, k)
    ensures var end := Run(p, s, Walk(order, nonces)[k..]);
      && end.Some? && Rotating(p, origin, end.value) && end.value.running && end.value.leftovers == []
      && |end.value.tree| == |s.tree| && Visited(p, end.value.tree, order, |order|)
    decreases |order| - k
  {
    hide Rotating, Apply, OnlyActive, NoncesValid, Lawful, DigestTellsLengths, Run, Walk, Visited;
    var steps := Walk(order, nonces);
    if k == |order| {
      assert steps[k..] == [];
      RunNothing(p, s);
    } else {
      assert NoncesValid(nonces(k));
      Visit(p, origin, s, order[k], nonces(k));
      var next := Apply(p, s, steps[k]).value;
      VisitedMore(p, s.tree, next.tree, order, k);
      WalkCovers(p, origin, next, order, nonces, k + 1);
      assert steps[k..] == [steps[k]] + steps[k + 1..];
      RunConcat(p, s, [steps[k]], steps[k + 1..]);
      RunStep(p, s, steps[k]);
    }
  }

  lemma {:induction false} RunNothing(p: Params, s: State)
    requires p.k.Valid()
    ensures Run(p, s, []) == Some(s)
  {
  }

  lemma {:induction false} VisitedMore(
    p: Params, tree: seq<PersistedFile>, tree': seq<PersistedFile>, order: seq<nat>, k: nat)
    requires Visited(p, tree, order, k) && k < |order| && order[k] < |tree| && |tree'| == |tree|
    requires tree' == tree[order[k] := tree'[order[k]]] && OnlyActive(p, tree'[order[k]])
    ensures Visited(p, tree', order, k + 1)
  {
    hide OnlyActive;
  }

  /** With nothing left behind a rerun completes exactly if the tree holds an envelope. */
  lemma {:induction false} CleanRerun(
    p: Params, origin: seq<PersistedFile>, s: State, order: seq<nat>, nonces: nat -> (nat -> bytes))
    requires ParamsValid(p) && Rotating(p, origin, s) && !s.running && s.leftovers == []
    requires Visits(order, |s.tree|) && AllNoncesValid(nonces)
    ensures Completes(p, s, RerunSteps(order, nonces)) <==> HasEnvelope(p, origin)
    ensures Completes(p, s, RerunSteps(order, nonces)) ==>
      Done(p, origin, Run(p, s, RerunSteps(order, nonces)).value)
  {
    hide Rotating, BeginStep, FinishStep, OnlyActive, AllNoncesValid, Run, HasEnvelope, TreeKept, KeyIds;
    CleanBegins(p, origin, s);
    StepKeeps(p, origin, s, Begin);
    var begun := BeginStep(p, s).value;
    RunStep(p, s, Begin);
    var walk := Walk(order, nonces);
    WalkCovers(p, origin, begun, order, nonces, 0);
    assert walk[0..] == walk;
    RunConcat(p, s, [Begin], walk);
    var walked := Run(p, begun, walk).value;
    RunConcat(p, s, [Begin] + walk, [Finish]);
    RunStep(p, walked, Finish);
    forall i | 0 <= i < |walked.tree| ensures OnlyActive(p, walked.tree[i]) {
      assert i in order;
      var j :| 0 <= j < |order| && order[j] == i;
    }
    FinishExact(p, origin, walked);
    FinishEnds(p, origin, walked);
  }

  /** What a completed rotation leaves: the files kept, one key referenced, no journal. */
  ghost predicate Done(p: Params, origin: seq<PersistedFile>, s: State) {
    && TreeKept(p, origin, s.tree) && KeyIds(p, s.tree) == {Some(p.k.active)}
    && s.leftovers == [] && s.journal.None? && !s.running
  }

  lemma {:induction false} FinishEnds(p: Params, origin: seq<PersistedFile>, s: State)
    requires Rotating(p, origin, s) && s.running
    ensures FinishStep(p, s).Err? ==> Settle(s, FinishStep(p, s)).journal.Some?
    ensures FinishStep(p, s).Ok? ==> FinishStep(p, s).value == s.(journal := None, running := false)
    ensures TreeKept(p, origin, s.tree)
  {
    hide GoodFile, LogicalDigest, KeyIds, TreeKept;
  }

  lemma {:induction false} CleanBegins(p: Params, origin: seq<PersistedFile>, s: State)
    requires ParamsValid(p) && Rotating(p, origin, s) && !s.running && s.leftovers == []
    ensures BeginStep(p, s).Ok? && BeginStep(p, s).value.running
    ensures BeginStep(p, s).value.leftovers == [] && BeginStep(p, s).value.tree == s.tree
  {
    hide AllGood, TreeKept, LogicalDigest, Lawful, Contents, DigestTellsLengths;
    BeginMeans(p, origin, s);
    if s.journal.Some? {
      var n: nat :| Journaled(p, origin, s, n);
      assert Journaled(p, origin, s, |s.leftovers|);
    }
  }

  /** No step of a rerun removes a leftover. */
  lemma {:induction false} LeftoversStay(p: Params, origin: seq<PersistedFile>, s: State, steps: seq<Step>)
    requires ParamsValid(p) && Rotating(p, origin, s) && Run(p, s, steps).Some?
    requires forall i :: 0 <= i < |steps| ==> steps[i].Begin? || steps[i].RewrapAt?
    ensures Run(p, s, steps).value.leftovers == s.leftovers
    decreases |steps|
  {
    hide Rotating, RewrapStep, BeginStep, Lawful, DigestTellsLengths, NoncesValid;
    if steps != [] {
      var next := Apply(p, s, steps[0]).value;
      StepKeeps(p, origin, s, steps[0]);
      if steps[0].Begin? {
        BeginLeaves(p, s);
      } else {
        RewrapMeans(p, origin, s, steps[0].i, steps[0].nonces);
      }
      assert next.leftovers == s.leftovers;
      LeftoversStay(p, origin, next, steps[1..]);
    }
  }

  lemma {:induction false} BeginLeaves(p: Params, s: State)
    ensures BeginStep(p, s).Ok? ==>
      && BeginStep(p, s).value.leftovers == s.leftovers
      && BeginStep(p, s).value.tree == s.tree
  {
    hide LogicalDigest;
  }

  /** With something left behind no rerun completes. */
  lemma {:induction false} BlockedRerun(
    p: Params, origin: seq<PersistedFile>, s: State, order: seq<nat>, nonces: nat -> (nat -> bytes))
    requires ParamsValid(p) && Rotating(p, origin, s) && s.leftovers != []
    ensures !Completes(p, s, RerunSteps(order, nonces))
  {
    hide Rotating, Run, FinishStep, Apply;
    var front := [Begin] + Walk(order, nonces);
    RunConcat(p, s, front, [Finish]);
    if Run(p, s, front).Some? {
      var walked := Run(p, s, front).value;
      RunKeeps(p, origin, s, front);
      LeftoversStay(p, origin, s, front);
      RunStep(p, walked, Finish);
      LeftoverRefused(p, origin, walked);
    }
  }

  lemma {:induction false} LeftoverRefused(p: Params, origin: seq<PersistedFile>, s: State)
    requires p.k.Valid() && Rotating(p, origin, s) && s.leftovers != []
    ensures Apply(p, s, Finish).Some? ==> Apply(p, s, Finish).value.journal.Some?
  {
    hide TreeKept, AllGood, LogicalDigest, KeyIds, Contents, Envelopes;
    if s.running {
      var n: nat :| Journaled(p, origin, s, n);
      assert s.leftovers[..n] == s.leftovers;
      var files := s.tree + s.leftovers;
      assert files[|s.tree|] == s.leftovers[0];
      assert !GoodFile(p, files[|s.tree|]);
    }
  }

  /** Resumption is exact. In every reachable state of a stopped rotation, a rerun that visits the files in any
      order comes to its end, with every file kept and only the active key referenced, if and only if no crash
      left a temporary file behind and the tree holds an envelope. */
  lemma {:induction false} RerunExact(
    p: Params, origin: seq<PersistedFile>, steps: seq<Step>, order: seq<nat>, nonces: nat -> (nat -> bytes))
    requires ParamsValid(p) && AllGood(p, origin) && AllNoncesValid(nonces)
    requires Run(p, Start(origin), steps).Some? && !Run(p, Start(origin), steps).value.running
    requires var s := Run(p, Start(origin), steps).value; Visits(order, |s.tree + s.leftovers|)
    ensures var s := Run(p, Start(origin), steps).value;
      && (Completes(p, s, RerunSteps(order, nonces)) <==> s.leftovers == [] && HasEnvelope(p, origin))
      && (Completes(p, s, RerunSteps(order, nonces)) ==> Done(p, origin, Run(p, s, RerunSteps(order, nonces)).value))
  {
    hide Rotating, Run, AllGood, AllNoncesValid, HasEnvelope, Done, Completes, RerunSteps, Visits;
    var s := Run(p, Start(origin), steps).value;
    StartRotating(p, origin);
    RunKeeps(p, origin, Start(origin), steps);
    if s.leftovers == [] {
      assert s.tree + s.leftovers == s.tree;
      CleanRerun(p, origin, s, order, nonces);
    } else {
      BlockedRerun(p, origin, s, order, nonces);
    }
  }

  // ----- The failures, as runs -----

  lemma {:induction false} Begins(p: Params, origin: seq<PersistedFile>)
    requires ParamsValid(p) && AllGood(p, origin)
    ensures BeginStep(p, Start(origin)).Ok? && BeginStep(p, Start(origin)).value.running
    ensures LogicalDigest(p, Start(origin)).Ok?
  {
    hide Canonicals, AllGood, Lawful;
    OriginDigestible(p, origin, []);
    assert origin + [] == origin;
  }

  /** A crash while a file is being replaced leaves its temporary file in the tree; the journal check then
      refuses every rerun. */
  lemma {:induction false} LeftoverBlocksResume(p: Params, origin: seq<PersistedFile>, temporary: PersistedFile)
    requires ParamsValid(p) && AllGood(p, origin) && (temporary.Sealed? || temporary.Plain?)
    ensures var s := Run(p, Start(origin), [Begin, CrashInWrite(temporary)]);
      s.Some? && !s.value.running && BeginStep(p, s.value).Err?
  {
    hide BeginStep, Canonicals, AllGood, Rotating, Lawful, DigestTellsLengths;
    Begins(p, origin);
    var begun := BeginStep(p, Start(origin)).value;
    var crashed := begun.(running := false, leftovers := begun.leftovers + [temporary]);
    RunTwo(p, Start(origin), Begin, begun, CrashInWrite(temporary), crashed);
    StartRotating(p, origin);
    BeginMeans(p, origin, Start(origin));
    BeginLeaves(p, Start(origin));
    StepKeeps(p, origin, Start(origin), Begin);
    StepKeeps(p, origin, begun, CrashInWrite(temporary));
    LateLeftover(p, origin, begun, crashed);
  }

  lemma {:induction false} LateLeftover(p: Params, origin: seq<PersistedFile>, begun: State, crashed: State)
    requires ParamsValid(p) && Rotating(p, origin, begun) && Rotating(p, origin, crashed) && !crashed.running
    requires Journaled(p, origin, begun, 0) && begun.leftovers == []
    requires crashed.journal == begun.journal && |crashed.leftovers| == 1
    ensures BeginStep(p, crashed).Err?
  {
    hide TreeKept, AllGood, Canonicals, Lawful;
    BeginMeans(p, origin, crashed);
    DigestSeen(p, origin, crashed);
    OriginDigestible(p, origin, []);
    if Canonicals(p, origin + crashed.leftovers).Ok? {
      CanonicalsLength(p, origin + crashed.leftovers);
    }
    assert begun.leftovers[..0] == [];
  }

  /** A crash while the journal itself is being written leaves a temporary file and no journal. The next run
      passes the digest check and writes a journal that covers the leftover, and then neither it nor any later
      run completes. */
  lemma {:induction false} JournalCrashBlocks(
    p: Params, origin: seq<PersistedFile>, written: bytes, order: seq<nat>, nonces: nat -> (nat -> bytes))
    requires ParamsValid(p) && AllGood(p, origin)
    ensures var s := Run(p, Start(origin), [CrashInJournal(written)]);
      && s.Some? && s.value.leftovers == [Plain(written)] && s.value.journal.None?
      && BeginStep(p, s.value).Ok? && BeginStep(p, BeginStep(p, s.value).value.(running := false)).Ok?
      && !Completes(p, s.value, RerunSteps(order, nonces))
      && !Completes(p, BeginStep(p, s.value).value.(running := false), RerunSteps(order, nonces))
  {
    hide BeginStep, AllGood, Rotating, Lawful, DigestTellsLengths, Completes, Run, RerunSteps, LogicalDigest, Journaled;
    Begins(p, origin);
    StartRotating(p, origin);
    RunStep(p, Start(origin), CrashInJournal(written));
    StepKeeps(p, origin, Start(origin), CrashInJournal(written));
    var s := Start(origin).(leftovers := [Plain(written)]);
    assert [] + [Plain(written)] == [Plain(written)];
    assert Apply(p, Start(origin), CrashInJournal(written)) == Some(s);
    BeginMeans(p, origin, s);
    BeginLeaves(p, s);
    StepKeeps(p, origin, s, Begin);
    var begun := BeginStep(p, s).value;
    StopKeeps(p, origin, begun);
    var stopped := begun.(running := false);
    BeginAgain(p, origin, begun);
    BlockedRerun(p, origin, s, order, nonces);
    BlockedRerun(p, origin, stopped, order, nonces);
  }

  lemma {:induction false} BeginAgain(p: Params, origin: seq<PersistedFile>, begun: State)
    requires ParamsValid(p) && Rotating(p, origin, begun) && Rotating(p, origin, begun.(running := false))
    requires Journaled(p, origin, begun, |begun.leftovers|)
    ensures BeginStep(p, begun.(running := false)).Ok?
  {
    hide TreeKept, AllGood, Lawful, Contents, DigestTellsLengths;
    BeginMeans(p, origin, begun.(running := false));
    assert Journaled(p, origin, begun.(running := false), |begun.leftovers|);
  }

  lemma {:induction false} RunTwo(p: Params, s: State, a: Step, s1: State, b: Step, s2: State)
    requires p.k.Valid() && Apply(p, s, a) == Some(s1) && Apply(p, s1, b) == Some(s2)
    ensures Run(p, s, [a, b]) == Some(s2)
  {
    hide Apply, Run;
    RunConcat(p, s, [a], [b]);
    RunStep(p, s, a);
    RunStep(p, s1, b);
    assert [a] + [b] == [a, b];
  }

  /** A tree without files passes every check of a rotation but the last one. */
  lemma {:induction false} PlainTreeNeverFinishes(p: Params, nonces: nat -> (nat -> bytes))
    requires ParamsValid(p) && AllNoncesValid(nonces)
    ensures BeginStep(p, Start([])).Ok?
    ensures !Completes(p, Start([]), RerunSteps([], nonces))
  {
    hide Completes, RerunSteps, Rotating;
    Begins(p, []);
    StartRotating(p, []);
    CleanRerun(p, [], Start([]), [], nonces);
  }
}
