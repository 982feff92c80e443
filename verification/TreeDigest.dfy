/** What the logical digest of a tree tells (`logical_tree_digest` in `encryption.rs`): everything about the plaintexts
    and nothing about the wrapping, so that a journal written for one tree fits no other. */
module TreeDigest {
  import opened Wrappers
  import opened Bytes
  import opened Envelope
  import opened KeyRotation
  import opened TreeRotation

  // ----- Log records -----

  /** Decoded log records delimit themselves. */
  lemma {:induction false} WalRecordsExact(p: Params, x: seq<bytes>, y: seq<bytes>)
    requires WalRecords(p, x).Ok? && WalRecords(p, y).Ok?
    ensures WalRecords(p, x) == WalRecords(p, y) <==> x == y
    decreases |x|
  {
    hide FromLE, LE;
    if x == [] || y == [] {
      if x != [] {
        FrameNotEmpty(p, x[0]);
      }
      if y != [] {
        FrameNotEmpty(p, y[0]);
      }
    } else if WalRecords(p, x) == WalRecords(p, y) {
      var a, b := WalFrame(p.crc, x[0]), WalFrame(p.crc, y[0]);
      var s, t := WalRecords(p, x[1..]).value, WalRecords(p, y[1..]).value;
      assert a + s == b + t;
      FrameCancels(p, x[0], y[0], s, t);
      WalRecordsExact(p, x[1..], y[1..]);
      assert x == [x[0]] + x[1..] && y == [y[0]] + y[1..];
    }
  }

  lemma {:induction false} FrameNotEmpty(p: Params, record: bytes)
    requires |record| < U32_LIMIT
    ensures |WalFrame(p.crc, record)| == 8 + |record|
  {
  }

  lemma {:induction false} FrameCancels(p: Params, x: bytes, y: bytes, s: bytes, t: bytes)
    requires |x| < U32_LIMIT && |y| < U32_LIMIT && WalFrame(p.crc, x) + s == WalFrame(p.crc, y) + t
    ensures x == y && s == t
  {
    hide FromLE, LE;
    var a, b := WalFrame(p.crc, x) + s, WalFrame(p.crc, y) + t;
    assert a[..4] == Put32(|x|) && b[..4] == Put32(|y|);
    assert |x| == |y|;
    assert a[8..8 + |x|] == x && b[8..8 + |y|] == y;
    assert a[8 + |x|..] == s && b[8 + |y|..] == t;
  }

  // ----- Audit lines -----

  predicate OneLine(s: bytes) {
    10 !in s
  }

  /** A record cut at its newlines; a record without one is its own only line. */
  function Cut(s: bytes): (lines: seq<bytes>)
    ensures lines != [] && forall i :: 0 <= i < |lines| ==> OneLine(lines[i])
  {
    if s == [] then [[]]
    else if s[0] == 10 then [[]] + Cut(s[1..])
    else
      var rest := Cut(s[1..]);
      [[s[0]] + rest[0]] + rest[1..]
  }

  function CutAll(records: seq<bytes>): (lines: seq<bytes>)
    ensures forall i :: 0 <= i < |lines| ==> OneLine(lines[i])
  {
    if records == [] then [] else Cut(records[0]) + CutAll(records[1..])
  }

  lemma {:induction false} LinesConcat(a: seq<bytes>, b: seq<bytes>)
    ensures AuditLines(a + b) == AuditLines(a) + AuditLines(b)
  {
    if a == [] {
      assert a + b == b;
    } else {
      assert (a + b)[1..] == a[1..] + b;
      LinesConcat(a[1..], b);
      assert a[0] + [10] + (AuditLines(a[1..]) + AuditLines(b)) == a[0] + [10] + AuditLines(a[1..]) + AuditLines(b);
    }
  }

  lemma {:induction false} CutText(s: bytes)
    ensures AuditLines(Cut(s)) == s + [10]
  {
    if s == [] {
      assert Cut(s)[1..] == [];
    } else {
      CutText(s[1..]);
      var rest := Cut(s[1..]);
      assert s == [s[0]] + s[1..];
      if s[0] == 10 {
        assert Cut(s)[1..] == rest;
        assert [10] + (s[1..] + [10]) == s + [10];
      } else {
        assert Cut(s)[1..] == rest[1..];
        var tail := AuditLines(rest[1..]);
        assert [s[0]] + rest[0] + [10] + tail == [s[0]] + (rest[0] + [10] + tail);
        assert [s[0]] + (s[1..] + [10]) == s + [10];
      }
    }
  }

  lemma {:induction false} CutAllText(records: seq<bytes>)
    ensures AuditLines(CutAll(records)) == AuditLines(records)
  {
    hide Cut;
    if records != [] {
      CutText(records[0]);
      CutAllText(records[1..]);
      LinesConcat(Cut(records[0]), CutAll(records[1..]));
    }
  }

  predicate AllOneLine(lines: seq<bytes>) {
    forall i :: 0 <= i < |lines| ==> OneLine(lines[i])
  }

  lemma {:induction false} LinesExact(x: seq<bytes>, y: seq<bytes>)
    requires AllOneLine(x) && AllOneLine(y)
    ensures AuditLines(x) == AuditLines(y) <==> x == y
    decreases |x|
  {
    if x != [] && y != [] && AuditLines(x) == AuditLines(y) {
      var s, t := AuditLines(x[1..]), AuditLines(y[1..]);
      assert x[0] + [10] + s == y[0] + [10] + t;
      LineCancels(x[0], y[0], s, t);
      LinesExact(x[1..], y[1..]);
      assert x == [x[0]] + x[1..] && y == [y[0]] + y[1..];
    }
  }

  lemma {:induction false} LineCancels(x: bytes, y: bytes, s: bytes, t: bytes)
    requires OneLine(x) && OneLine(y) && x + [10] + s == y + [10] + t
    ensures x == y && s == t
  {
    var a, b := x + [10] + s, y + [10] + t;
    assert a[|x|] == 10 && b[|y|] == 10;
    assert forall i :: 0 <= i < |x| ==> a[i] == x[i] && x[i] in x;
    assert forall i :: 0 <= i < |y| ==> b[i] == y[i] && y[i] in y;
    assert |x| == |y|;
    assert a[..|x|] == x && b[..|y|] == y && a[|x| + 1..] == s && b[|y| + 1..] == t;
  }

  /** The text of audit records tells their lines, and so the records themselves if none holds a newline. */
  lemma {:induction false} AuditLinesExact(x: seq<bytes>, y: seq<bytes>)
    ensures AuditLines(x) == AuditLines(y) <==> CutAll(x) == CutAll(y)
    ensures AllOneLine(x) && AllOneLine(y) ==> (AuditLines(x) == AuditLines(y) <==> x == y)
  {
    hide CutAll;
    CutAllText(x);
    CutAllText(y);
    LinesExact(CutAll(x), CutAll(y));
    if AllOneLine(x) && AllOneLine(y) {
      LinesExact(x, y);
    }
  }

  /** With a newline inside a record the records are not told apart. */
  lemma {:induction false} NewlineJoins()
    ensures AuditLines([[97, 10, 98]]) == AuditLines([[97], [98]])
  {
    var one: seq<bytes>, two: seq<bytes> := [[97, 10, 98]], [[97], [98]];
    assert one[1..] == [] && two[1..] == [[98]] && two[1..][1..] == [];
    assert AuditLines(one) == [97, 10, 98, 10];
    assert AuditLines(two[1..]) == [98, 10];
  }

  // ----- One file -----

  predicate SameKind(f: PersistedFile, g: PersistedFile) {
    f.Sealed? == g.Sealed? && f.WalLog? == g.WalLog? && f.AuditLog? == g.AuditLog? && f.Bootstrap? == g.Bootstrap?
  }

  /** Two files of one kind hold the same plaintext: that of the envelope, of each log frame in order, or the bytes
      themselves. Audit records count by their lines. */
  predicate SamePlaintext(p: Params, f: PersistedFile, g: PersistedFile)
    requires SameKind(f, g)
  {
    match f
    case Sealed(env) => PlaintextOf(p.k, p.a, env) == PlaintextOf(p.k, p.a, g.env)
    case WalLog(_) => Plaintexts(p, Envelopes(p, f)) == Plaintexts(p, Envelopes(p, g))
    case AuditLog(_) =>
      var x, y := Plaintexts(p, Envelopes(p, f)), Plaintexts(p, Envelopes(p, g));
      x.Ok? && y.Ok? && CutAll(x.value) == CutAll(y.value)
    case Bootstrap(content) => content == g.content
    case Plain(content) => content == g.content
  }

  /** For digestible files of one kind, the canonical content is the same if and only if the plaintext is. */
  lemma {:induction false} CanonicalExact(p: Params, f: PersistedFile, g: PersistedFile)
    requires SameKind(f, g) && Canonical(p, f).Ok? && Canonical(p, g).Ok?
    ensures Canonical(p, f) == Canonical(p, g) <==> SamePlaintext(p, f, g)
  {
    hide WalFrames, PlaintextOf, Plaintexts, WalRecords, CutAll, AuditLines;
    match f
    case WalLog(_) =>
      WalRecordsExact(p, Plaintexts(p, Envelopes(p, f)).value, Plaintexts(p, Envelopes(p, g)).value);
    case AuditLog(_) =>
      AuditLinesExact(Plaintexts(p, Envelopes(p, f)).value, Plaintexts(p, Envelopes(p, g)).value);
    case _ =>
  }

  /** In particular for any two files of one kind that the final verification accepts. */
  lemma {:induction false} GoodFilesDigest(p: Params, f: PersistedFile, g: PersistedFile)
    requires ParamsValid(p) && GoodFile(p, f) && GoodFile(p, g) && SameKind(f, g)
    ensures Canonical(p, f).Ok? && Canonical(p, g).Ok?
    ensures Canonical(p, f) == Canonical(p, g) <==> SamePlaintext(p, f, g)
  {
    hide GoodFile, Canonical, SamePlaintext, Lawful, DigestTellsLengths;
    GoodIsDigestible(p, f);
    GoodIsDigestible(p, g);
    CanonicalExact(p, f, g);
  }

  // ----- The tree -----

  /** The digest is one of the contents in order. */
  ghost predicate DigestExact(p: Params) {
    forall x, y {:trigger p.digest(x), p.digest(y)} :: p.digest(x) == p.digest(y) ==> x == y
  }

  predicate SameTree(p: Params, xs: seq<PersistedFile>, ys: seq<PersistedFile>) {
    |xs| == |ys| && forall i :: 0 <= i < |xs| ==> SameKind(xs[i], ys[i]) && SamePlaintext(p, xs[i], ys[i])
  }

  predicate SameKinds(xs: seq<PersistedFile>, ys: seq<PersistedFile>) {
    |xs| == |ys| ==> forall i :: 0 <= i < |xs| ==> SameKind(xs[i], ys[i])
  }

  lemma {:induction false} ContentsExact(p: Params, xs: seq<PersistedFile>, ys: seq<PersistedFile>)
    requires Canonicals(p, xs).Ok? && Canonicals(p, ys).Ok? && SameKinds(xs, ys)
    ensures Canonicals(p, xs) == Canonicals(p, ys) <==> SameTree(p, xs, ys)
    decreases |xs|
  {
    hide Canonical, SamePlaintext, SameKind;
    CanonicalsLength(p, xs);
    CanonicalsLength(p, ys);
    if |xs| == |ys| && xs != [] {
      CanonicalExact(p, xs[0], ys[0]);
      ContentsExact(p, xs[1..], ys[1..]);
      var a, b := Canonicals(p, xs[1..]).value, Canonicals(p, ys[1..]).value;
      var x, y := Canonicals(p, xs).value, Canonicals(p, ys).value;
      assert x[0] == Canonical(p, xs[0]).value && y[0] == Canonical(p, ys[0]).value && x[1..] == a && y[1..] == b;
      SplitTree(p, xs, ys);
    }
  }

  lemma {:induction false} SplitTree(p: Params, xs: seq<PersistedFile>, ys: seq<PersistedFile>)
    requires |xs| == |ys| && xs != [] && SameKind(xs[0], ys[0])
    ensures SameTree(p, xs, ys) <==> SamePlaintext(p, xs[0], ys[0]) && SameTree(p, xs[1..], ys[1..])
  {
    hide SamePlaintext, SameKind;
    if SamePlaintext(p, xs[0], ys[0]) && SameTree(p, xs[1..], ys[1..]) {
      forall i | 0 <= i < |xs| ensures SameKind(xs[i], ys[i]) && SamePlaintext(p, xs[i], ys[i]) {
        if i > 0 {
          assert xs[1..][i - 1] == xs[i] && ys[1..][i - 1] == ys[i];
        }
      }
    }
  }

  /** The journal `BeginStep` writes for a tree. */
  ghost predicate JournalFor(p: Params, j: Journal, active: bytes, origin: seq<PersistedFile>) {
    Canonicals(p, origin).Ok? && j == Journal(active, p.digest(Canonicals(p, origin).value))
  }

  lemma {:induction false} BeginWrites(p: Params, s: State)
    requires s.journal.None? && Canonicals(p, s.tree + s.leftovers).Ok?
    ensures BeginStep(p, s).Ok? && BeginStep(p, s).value.running && BeginStep(p, s).value.journal.Some?
    ensures JournalFor(p, BeginStep(p, s).value.journal.value, p.k.active, s.tree + s.leftovers)
    ensures BeginStep(p, s).value == s.(journal := BeginStep(p, s).value.journal, running := true)
  {
    hide Canonicals;
  }

  /** A run under a journal goes on if and only if it is for the same key, and every file of the tree still has the
      plaintext it had when the journal was written. */
  lemma {:induction false} BeginExact(p: Params, s: State, active: bytes, origin: seq<PersistedFile>)
    requires DigestExact(p) && s.journal.Some? && JournalFor(p, s.journal.value, active, origin)
    requires Canonicals(p, s.tree + s.leftovers).Ok? && SameKinds(origin, s.tree + s.leftovers)
    ensures BeginStep(p, s).Ok? <==> active == p.k.active && SameTree(p, origin, s.tree + s.leftovers)
    ensures BeginStep(p, s).Ok? ==> BeginStep(p, s).value == s.(running := true)
  {
    hide Canonicals, SameTree, SameKinds;
    ContentsExact(p, origin, s.tree + s.leftovers);
  }

  /** A rotation ends if and only if every file is good, the key and the plaintexts are those the journal was written
      for, and the active key alone is referenced. */
  lemma {:induction false} FinishStepExact(p: Params, s: State, active: bytes, origin: seq<PersistedFile>)
    requires ParamsValid(p) && DigestExact(p) && s.journal.Some? && JournalFor(p, s.journal.value, active, origin)
    requires SameKinds(origin, s.tree + s.leftovers)
    ensures var files := s.tree + s.leftovers;
      FinishStep(p, s).Ok? <==>
        && (forall i :: 0 <= i < |files| ==> GoodFile(p, files[i]))
        && active == p.k.active && SameTree(p, origin, files)
        && (forall i, j :: 0 <= i < |files| && 0 <= j < |Envelopes(p, files[i])| ==>
              KeyIdOf(Envelopes(p, files[i])[j]) == Some(p.k.active))
        && (exists i :: 0 <= i < |files| && Envelopes(p, files[i]) != [])
    ensures FinishStep(p, s).Ok? ==> FinishStep(p, s).value == s.(journal := None, running := false)
  {
    hide Canonicals, SameTree, SameKinds, GoodFile, Lawful, DigestTellsLengths, Envelopes, KeyIdOf;
    var files := s.tree + s.leftovers;
    if forall i :: 0 <= i < |files| ==> GoodFile(p, files[i]) {
      TreeIsDigestible(p, files);
      ContentsExact(p, origin, files);
      OnlyKey(p, files);
    }
  }

  /** One key is referenced, and it is the active one. */
  lemma {:induction false} OnlyKey(p: Params, files: seq<PersistedFile>)
    ensures KeyIds(p, files) == {Some(p.k.active)} <==>
      && (forall i, j :: 0 <= i < |files| && 0 <= j < |Envelopes(p, files[i])| ==>
            KeyIdOf(Envelopes(p, files[i])[j]) == Some(p.k.active))
      && (exists i :: 0 <= i < |files| && Envelopes(p, files[i]) != [])
  {
    hide Envelopes, KeyIdOf;
    var ids := KeyIds(p, files);
    if ids == {Some(p.k.active)} {
      forall i, j | 0 <= i < |files| && 0 <= j < |Envelopes(p, files[i])|
        ensures KeyIdOf(Envelopes(p, files[i])[j]) == Some(p.k.active)
      {
        assert KeyIdOf(Envelopes(p, files[i])[j]) in ids;
      }
      assert Some(p.k.active) in ids;
    }
    if exists i :: 0 <= i < |files| && Envelopes(p, files[i]) != [] {
      var i :| 0 <= i < |files| && Envelopes(p, files[i]) != [];
      assert KeyIdOf(Envelopes(p, files[i])[0]) in ids;
    }
  }
}
