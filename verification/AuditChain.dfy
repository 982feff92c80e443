/** What the audit hash chain of `audit.rs` guarantees, said about the fields of
    its records: the links and sequence numbers verification demands, and that a
    log cannot be changed behind its last hash. Also which bytes are UTF-8. */
module AuditChain {
  import opened Wrappers
  import opened Bytes
  import opened AuditTail

  // ----- The chain, field by field -----

  /** Record `i` hashes to its own hash, names the hash of the record before it, or the genesis hash of its format, and
      its sequence number, if it has one, counts it. */
  predicate Linked(c: Codec, log: seq<Record>, i: nat)
    requires i < |log|
  {
    && log[i].hash == c.digest(log[i].content)
    && log[i].content.previous == (
         if i > 0 then log[i - 1].hash else if log[0].content.versioned then c.genesis else c.legacyGenesis)
    && (log[i].content.sequence == None || log[i].content.sequence == Some(i + 1))
  }

  predicate OneChain(c: Codec, log: seq<Record>) {
    forall i :: 0 <= i < |log| ==> Linked(c, log, i)
  }

  /** Record `i` of a list that continues a chain. */
  predicate LinkedFrom(c: Codec, log: seq<Record>, at: Chain, i: nat)
    requires i < |log|
  {
    Links(c, if i == 0 then at else Chain(log[i - 1].hash, at.count + i), log[i])
  }

  lemma {:induction false} ChainedLinks(c: Codec, log: seq<Record>, at: Chain)
    ensures Chained(c, log, at) <==> forall i :: 0 <= i < |log| ==> LinkedFrom(c, log, at, i)
    decreases |log|
  {
    if log != [] {
      var rest, next := log[1..], Chain(log[0].hash, at.count + 1);
      ChainedLinks(c, rest, next);
      forall i | 0 <= i < |rest| ensures LinkedFrom(c, rest, next, i) <==> LinkedFrom(c, log, at, i + 1) {
        assert rest[i] == log[i + 1] && (i > 0 ==> rest[i - 1] == log[i]);
      }
      if forall i :: 0 <= i < |rest| ==> LinkedFrom(c, rest, next, i) {
        forall i | 0 < i < |log| ensures LinkedFrom(c, log, at, i) {
          assert LinkedFrom(c, rest, next, i - 1);
        }
      }
      if forall i :: 0 <= i < |log| ==> LinkedFrom(c, log, at, i) {
        assert LinkedFrom(c, log, at, 0);
        forall i | 0 <= i < |rest| ensures LinkedFrom(c, rest, next, i) {
          assert LinkedFrom(c, log, at, i + 1);
        }
      }
    }
  }

  lemma {:induction false} ChainFields(c: Codec, log: seq<Record>)
    ensures Chained(c, log, Chain(c.genesis, 0)) <==> OneChain(c, log)
  {
    hide Chained;
    var at := Chain(c.genesis, 0);
    ChainedLinks(c, log, at);
    forall i | 0 <= i < |log| ensures LinkedFrom(c, log, at, i) <==> Linked(c, log, i) {
    }
    if OneChain(c, log) {
      forall i | 0 <= i < |log| ensures LinkedFrom(c, log, at, i) {
        assert Linked(c, log, i);
      }
    }
  }

  /** Verification accepts a log, however it is divided into segments, exactly when every record is linked. */
  lemma {:induction false} VerifiedFields(c: Codec, segments: seq<seq<Record>>)
    requires Lawful(c) && AllFit(c, Flat(segments))
    ensures VerifyHashChain(c, SegmentFiles(c, segments)).Ok? <==> OneChain(c, Flat(segments))
  {
    hide Chained, OneChain, VerifyHashChain, Lawful;
    VerificationExact(c, segments);
    ChainFields(c, Flat(segments));
  }

  // ----- Tamper evidence -----

  /** The digest tells contents apart. */
  ghost predicate Collisionless(c: Codec) {
    forall x, y :: c.digest(x) == c.digest(y) ==> x == y
  }

  /** Two chained logs of one length that end in one hash are the same log: a record changed, removed or moved behind
      the last hash shows. */
  lemma {:induction false} TamperEvident(c: Codec, a: seq<Record>, b: seq<Record>)
    requires Collisionless(c) && OneChain(c, a) && OneChain(c, b) && |a| == |b|
    requires a != [] ==> a[|a| - 1].hash == b[|b| - 1].hash
    ensures a == b
  {
    if a != [] {
      var n := |a| - 1;
      assert Linked(c, a, n) && Linked(c, b, n);
      assert a[n] == b[n];
      var x, y := a[..n], b[..n];
      PrefixChain(c, a, n);
      PrefixChain(c, b, n);
      TamperEvident(c, x, y);
      assert a == x + [a[n]] && b == y + [b[n]];
    }
  }

  lemma {:induction false} PrefixChain(c: Codec, log: seq<Record>, n: nat)
    requires OneChain(c, log) && n <= |log|
    ensures OneChain(c, log[..n])
  {
    forall i | 0 <= i < n ensures Linked(c, log[..n], i) {
      assert Linked(c, log, i);
    }
  }

  /** With a sequence number in every record even the lengths need not be compared. */
  lemma {:induction false} TamperEvidentCounted(c: Codec, a: seq<Record>, b: seq<Record>)
    requires Collisionless(c) && OneChain(c, a) && OneChain(c, b) && a != [] && b != []
    requires a[|a| - 1].content.sequence.Some? && a[|a| - 1].hash == b[|b| - 1].hash
    ensures a == b
  {
    assert Linked(c, a, |a| - 1) && Linked(c, b, |b| - 1);
    TamperEvident(c, a, b);
  }

  // ----- Blank lines -----

  lemma {:induction false} ScanConcat(c: Codec, a: seq<bytes>, b: seq<bytes>, at: Chain)
    ensures ScanLines(c, a + b, at) ==
      if ScanLines(c, a, at).Ok? then ScanLines(c, b, ScanLines(c, a, at).value) else Err
  {
    hide ScanLine;
    if a == [] {
      assert a + b == b;
    } else {
      assert (a + b)[1..] == a[1..] + b;
      if ScanLine(c, a[0], at).Ok? {
        ScanConcat(c, a[1..], b, ScanLine(c, a[0], at).value);
      }
    }
  }

  predicate WhiteSpace(line: bytes) {
    forall i :: 0 <= i < |line| ==> line[i] in [9, 11, 12, 13, 32]
  }

  /** A line of white space anywhere in a file changes nothing. */
  lemma {:induction false} BlankLineSkipped(c: Codec, a: seq<bytes>, line: bytes, b: seq<bytes>, at: Chain)
    requires WhiteSpace(line)
    ensures ScanLines(c, a + [line] + b, at) == ScanLines(c, a + b, at)
  {
    hide ScanLine;
    ScanConcat(c, a + [line], b, at);
    ScanConcat(c, a, [line], at);
    ScanConcat(c, a, b, at);
    var one: seq<bytes> := [line];
    assert one[1..] == [];
    if ScanLines(c, a, at).Ok? {
      BlankLine(c, line, ScanLines(c, a, at).value);
    }
  }

  lemma {:induction false} BlankLine(c: Codec, line: bytes, at: Chain)
    requires WhiteSpace(line)
    ensures ScanLine(c, line, at) == Ok(at)
  {
    forall i | 0 <= i < |line| ensures line[i] <= 0x7F && (line[i] == 32 || 9 <= line[i] <= 13) {
      assert line[i] in [9, 11, 12, 13, 32];
    }
    AsciiThen(line, []);
    assert line + [] == line;
  }
}
