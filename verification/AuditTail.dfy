/** The bytes of the audit log (`audit.rs`, `audit/reader.rs`): newline-terminated
    frames, repair of a torn tail, and verification of the hash chain across
    rotated segments. Framing of one record (JSON, optionally encrypted and
    base64-encoded) and its digest are parameters with the laws they need. */
module AuditTail {
  import opened Wrappers
  import opened Bytes

  const NEWLINE: byte := 10
  const MAX_LINE: nat := 134221824

  /** A record without its own hash; `versioned` is false for a first record of the legacy format. */
  datatype Content = Content(previous: nat, sequence: Option<nat>, versioned: bool, body: nat)

  datatype Record = Record(content: Content, hash: nat)

  datatype Decoded = Complete(record: Record) | Truncated | Malformed

  /** Which records are small enough to frame, how lines are written and read, and the digest of a record. */
  datatype Codec = Codec(fits: Record -> bool, encode: Record -> bytes, decode: bytes -> Decoded,
    digest: Content -> nat, genesis: nat, legacyGenesis: nat)

  /** Lines hold no newline, are valid UTF-8 and not blank; a line decodes to its record, and every
      non-empty strict prefix of a line is recognised as truncated. */
  ghost predicate Lawful(c: Codec) {
    && (forall r :: c.fits(r) ==> NEWLINE !in c.encode(r))
    && (forall r :: c.fits(r) ==> !Blank(c.encode(r)) && Utf8(c.encode(r)) && |c.encode(r)| < MAX_LINE)
    && (forall r :: c.fits(r) ==> c.decode(c.encode(r)) == Complete(r))
    && (forall r, k :: c.fits(r) && 0 < k < |c.encode(r)| ==> c.decode(c.encode(r)[..k]) == Truncated)
  }

  predicate AllFit(c: Codec, records: seq<Record>) {
    forall i :: 0 <= i < |records| ==> c.fits(records[i])
  }

  // ----- UTF-8, section 4 of RFC 3629 -----

  predicate Continues(s: bytes, from: nat, to: nat) {
    to <= |s| && forall i :: from <= i < to ==> 0x80 <= s[i] <= 0xBF
  }

  /** Length of the character `s` starts with, 0 when it starts with none. */
  function CharLength(s: bytes): (n: nat)
    requires s != []
    ensures n <= |s|
  {
    var b := s[0];
    if b <= 0x7F then 1
    else if 0xC2 <= b <= 0xDF then if Continues(s, 1, 2) then 2 else 0
    else if 0xE0 <= b <= 0xEF then
      if Continues(s, 1, 3) && (b == 0xE0 ==> s[1] >= 0xA0) && (b == 0xED ==> s[1] <= 0x9F) then 3 else 0
    else if 0xF0 <= b <= 0xF4 then
      if Continues(s, 1, 4) && (b == 0xF0 ==> s[1] >= 0x90) && (b == 0xF4 ==> s[1] <= 0x8F) then 4 else 0
    else 0
  }

  predicate Utf8(s: bytes) {
    s == [] || (CharLength(s) > 0 && Utf8(s[CharLength(s)..]))
  }

  /** Nothing but white space: the scan skips the line. */
  predicate Blank(s: bytes) {
    forall i :: 0 <= i < |s| ==> s[i] == 32 || 9 <= s[i] <= 13
  }

  // ----- The last newline -----

  /** One past the last newline, 0 when there is none. */
  function TailStart(s: bytes): (p: nat)
    ensures p <= |s|
    ensures p > 0 ==> s[p - 1] == NEWLINE
    ensures forall i :: p <= i < |s| ==> s[i] != NEWLINE
  {
    if s == [] then 0
    else if s[|s| - 1] == NEWLINE then |s|
    else TailStart(s[..|s| - 1])
  }

  lemma {:induction false} TailStartUnique(s: bytes, p: nat)
    requires p <= |s| && (p > 0 ==> s[p - 1] == NEWLINE)
    requires forall i :: p <= i < |s| ==> s[i] != NEWLINE
    ensures TailStart(s) == p
  {
  }

  /** The tail is within reach of the search: the newline before it, or the whole file, lies within the limit. */
  predicate TailInReach(s: bytes) {
    var p := TailStart(s);
    if p > 0 then |s| - p < MAX_LINE else |s| <= MAX_LINE
  }

  /** Position of the last newline in a block, if it has one. */
  method LastNewline(block: bytes) returns (r: Option<nat>)
    ensures r.Some? ==> r.value < |block| && block[r.value] == NEWLINE && forall i :: r.value < i < |block| ==>
      block[i] != NEWLINE
    ensures r.None? ==> NEWLINE !in block
  {
    var i: nat := |block|;
    while i > 0
      invariant i <= |block|
      invariant forall k :: i <= k < |block| ==> block[k] != NEWLINE
    {
      i := i - 1;
      if block[i] == NEWLINE {
        return Some(i);
      }
    }
    return None;
  }

  /** The backward search in blocks of 4096 bytes finds the true last newline, and gives up exactly
      when the tail is longer than any frame. */
  method FindTailStart(s: bytes) returns (r: Result<nat>)
    ensures r == if TailInReach(s) then Ok(TailStart(s)) else Err
  {
    hide TailStart;
    var end: nat := |s|;
    var blocks: nat := 0;
    while true
      invariant end <= |s|
      invariant |s| - end == 4096 * blocks || end == |s| == 0
      invariant blocks <= 32769
      invariant forall i :: end <= i < |s| ==> s[i] != NEWLINE
      decreases 32770 - blocks
    {
      var start := if end >= 4096 then end - 4096 else 0;
      if |s| - start > MAX_LINE {
        return Err;
      }
      var found := LastNewline(s[start..end]);
      match found {
        case Some(index) =>
          assert s[start..end][index] == s[start + index];
          forall i | start + index + 1 <= i < |s| ensures s[i] != NEWLINE {
            assert i < end ==> s[start..end][i - start] != NEWLINE;
          }
          TailStartUnique(s, start + index + 1);
          return Ok(start + index + 1);
        case None =>
          forall i | start <= i < |s| ensures s[i] != NEWLINE {
            assert i < end ==> s[start..end][i - start] in s[start..end];
          }
          if start == 0 {
            TailStartUnique(s, 0);
            return Ok(0);
          }
          end := start;
          blocks := blocks + 1;
      }
    }
  }

  // ----- Lines -----

  /** The lines of a file; the last one may lack its newline. None when a line exceeds the limit. */
  function Lines(s: bytes): Result<seq<bytes>>
    decreases |s|
  {
    if s == [] then Ok([])
    else
      var k := FirstNewline(s);
      if k == |s| then (if |s| <= MAX_LINE then Ok([s]) else Err)
      else if k + 1 > MAX_LINE then Err
      else
        var rest :- Lines(s[k + 1..]);
        Ok([s[..k]] + rest)
  }

  function FirstNewline(s: bytes): (k: nat)
    ensures k <= |s| && (k < |s| ==> s[k] == NEWLINE)
    ensures forall i :: 0 <= i < k ==> s[i] != NEWLINE
  {
    if s == [] || s[0] == NEWLINE then 0 else 1 + FirstNewline(s[1..])
  }

  lemma {:induction false} FirstNewlineAt(line: bytes, rest: bytes)
    requires NEWLINE !in line
    ensures FirstNewline(line + [NEWLINE] + rest) == |line| && FirstNewline(line) == |line|
  {
    var s := line + [NEWLINE] + rest;
    assert s[|line|] == NEWLINE;
    assert forall i :: 0 <= i < |line| ==> s[i] == line[i] && line[i] in line;
  }

  // ----- The hash chain -----

  /** Where the chain stands: the hash the next record must name, and how many records came before. */
  datatype Chain = Chain(hash: nat, count: nat)

  predicate Links(c: Codec, at: Chain, r: Record) {
    && r.content.previous == (if at.count == 0 && !r.content.versioned then c.legacyGenesis else at.hash)
    && (r.content.sequence.Some? ==> r.content.sequence.value == at.count + 1)
    && c.digest(r.content) == r.hash
  }

  function ScanLine(c: Codec, line: bytes, at: Chain): Result<Chain> {
    if !Utf8(line) then Err
    else if Blank(line) then Ok(at)
    else
      match c.decode(line)
      case Complete(r) => if Links(c, at, r) then Ok(Chain(r.hash, at.count + 1)) else Err
      case _ => Err
  }

  function ScanLines(c: Codec, lines: seq<bytes>, at: Chain): Result<Chain> {
    if lines == [] then Ok(at)
    else
      var next :- ScanLine(c, lines[0], at);
      ScanLines(c, lines[1..], next)
  }

  function ScanFile(c: Codec, file: bytes, at: Chain): Result<Chain> {
    var lines :- Lines(file);
    ScanLines(c, lines, at)
  }

  /** Rotated segments in order, the active file last. */
  function Scan(c: Codec, files: seq<bytes>, at: Chain): Result<Chain> {
    if files == [] then Ok(at)
    else
      var next :- ScanFile(c, files[0], at);
      Scan(c, files[1..], next)
  }

  function VerifyHashChain(c: Codec, files: seq<bytes>): Result<Chain> {
    Scan(c, files, Chain(c.genesis, 0))
  }

  /** The verification loop over segments. */
  method VerifySegments(c: Codec, files: seq<bytes>) returns (r: Result<Chain>)
    ensures r == VerifyHashChain(c, files)
  {
    var at := Chain(c.genesis, 0);
    assert files[0..] == files;
    for i := 0 to |files|
      invariant VerifyHashChain(c, files) == Scan(c, files[i..], at)
    {
      assert files[i..][0] == files[i] && files[i..][1..] == files[i + 1..];
      var next := ScanFile(c, files[i], at);
      if next.Err? {
        return Err;
      }
      at := next.value;
    }
    return Ok(at);
  }

  // ----- Repair -----

  function Repair(c: Codec, segments: seq<bytes>, active: bytes): Result<bytes> {
    if active == [] || active[|active| - 1] == NEWLINE then Ok(active)
    else if !TailInReach(active) then Err
    else
      var p := TailStart(active);
      var tail := active[p..];
      if |tail| > MAX_LINE || !Utf8(tail) then Err
      else
        match c.decode(tail)
        case Complete(_) =>
          var _ :- VerifyHashChain(c, segments + [active]);
          Ok(active + [NEWLINE])
        case Truncated =>
          var _ :- VerifyHashChain(c, segments + [active[..p]]);
          Ok(active[..p])
        case Malformed => Err
  }

  // ----- What the writer leaves behind -----

  function Frame(c: Codec, r: Record): bytes {
    c.encode(r) + [NEWLINE]
  }

  function Frames(c: Codec, records: seq<Record>): bytes {
    if records == [] then [] else Frame(c, records[0]) + Frames(c, records[1..])
  }

  /** Records that continue the chain from `at`. */
  predicate Chained(c: Codec, records: seq<Record>, at: Chain) {
    records == [] || (Links(c, at, records[0]) && Chained(c, records[1..], Chain(records[0].hash, at.count + 1)))
  }

  function After(records: seq<Record>, at: Chain): Chain {
    if records == [] then at else After(records[1..], Chain(records[0].hash, at.count + 1))
  }

  /** The record the writer appends next. */
  function Next(c: Codec, at: Chain, body: nat): Record {
    var content := Content(at.hash, Some(at.count + 1), true, body);
    Record(content, c.digest(content))
  }

  lemma {:induction false} AfterCount(records: seq<Record>, at: Chain)
    ensures After(records, at).count == at.count + |records|
    ensures records != [] ==> After(records, at).hash == records[|records| - 1].hash
  {
    if records != [] {
      AfterCount(records[1..], Chain(records[0].hash, at.count + 1));
    }
  }

  lemma {:induction false} ChainedConcat(c: Codec, a: seq<Record>, b: seq<Record>, at: Chain)
    ensures Chained(c, a + b, at) <==> Chained(c, a, at) && Chained(c, b, After(a, at))
    ensures After(a + b, at) == After(b, After(a, at))
  {
    if a == [] {
      assert a + b == b;
    } else {
      assert (a + b)[1..] == a[1..] + b;
      ChainedConcat(c, a[1..], b, Chain(a[0].hash, at.count + 1));
    }
  }

  /** Appending keeps the chain, and the writer's next state is what a scan would report. */
  lemma {:induction false} AppendExtends(c: Codec, records: seq<Record>, at: Chain, body: nat)
    requires Chained(c, records, at)
    ensures var r := Next(c, After(records, at), body);
      && Chained(c, records + [r], at)
      && After(records + [r], at) == Chain(r.hash, at.count + |records| + 1)
  {
    var r := Next(c, After(records, at), body);
    ChainedConcat(c, records, [r], at);
    AfterCount(records, at);
    assert [r][1..] == [];
  }

  function FrameLines(c: Codec, records: seq<Record>): (r: seq<bytes>)
    ensures |r| == |records| && forall i :: 0 <= i < |r| ==> r[i] == c.encode(records[i])
  {
    seq(|records|, i requires 0 <= i < |records| => c.encode(records[i]))
  }

  /** The lines of a file of frames followed by an unterminated rest. */
  lemma {:induction false} FramesLines(c: Codec, records: seq<Record>, tail: bytes)
    requires Lawful(c) && AllFit(c, records) && NEWLINE !in tail && |tail| <= MAX_LINE
    ensures Lines(Frames(c, records) + tail) == Ok(FrameLines(c, records) + (if tail == [] then [] else [tail]))
  {
    var s := Frames(c, records) + tail;
    if records == [] {
      assert s == tail && FrameLines(c, records) == [];
      FirstNewlineAt(tail, []);
      assert [] + (if tail == [] then [] else [tail]) == if tail == [] then [] else [tail];
    } else {
      var line, rest := c.encode(records[0]), Frames(c, records[1..]) + tail;
      assert s == line + [NEWLINE] + rest;
      FirstNewlineAt(line, rest);
      assert s[..|line|] == line && s[|line| + 1..] == rest;
      FramesLines(c, records[1..], tail);
      assert FrameLines(c, records) == [line] + FrameLines(c, records[1..]);
      var more := if tail == [] then [] else [tail];
      assert FrameLines(c, records) + more == [line] + (FrameLines(c, records[1..]) + more);
    }
  }

  lemma {:induction false} ScanFrames(c: Codec, records: seq<Record>, at: Chain)
    requires Lawful(c) && AllFit(c, records)
    ensures ScanLines(c, FrameLines(c, records), at) == if Chained(c, records, at) then Ok(After(records, at)) else Err
  {
    hide Utf8, Blank;
    if records == [] {
      assert FrameLines(c, records) == [];
    } else {
      var line := c.encode(records[0]);
      assert c.decode(line) == Complete(records[0]);
      assert FrameLines(c, records)[1..] == FrameLines(c, records[1..]);
      if Links(c, at, records[0]) {
        ScanFrames(c, records[1..], Chain(records[0].hash, at.count + 1));
      }
    }
  }

  /** A file of whole frames passes exactly when its records continue the chain. */
  lemma {:induction false} ScanFileOfFrames(c: Codec, records: seq<Record>, at: Chain)
    requires Lawful(c) && AllFit(c, records)
    ensures ScanFile(c, Frames(c, records), at) == if Chained(c, records, at) then Ok(After(records, at)) else Err
  {
    hide Lawful, Chained, After, ScanLines, Lines;
    FramesLines(c, records, []);
    assert Frames(c, records) + [] == Frames(c, records);
    assert FrameLines(c, records) + [] == FrameLines(c, records);
    ScanFrames(c, records, at);
  }

  function SegmentFiles(c: Codec, segments: seq<seq<Record>>): (r: seq<bytes>)
    ensures |r| == |segments| && forall i :: 0 <= i < |r| ==> r[i] == Frames(c, segments[i])
  {
    seq(|segments|, i requires 0 <= i < |segments| => Frames(c, segments[i]))
  }

  lemma {:induction false} FitSplit(c: Codec, a: seq<Record>, b: seq<Record>)
    requires AllFit(c, a + b)
    ensures AllFit(c, a) && AllFit(c, b)
  {
    forall i | 0 <= i < |a| ensures c.fits(a[i]) {
      assert (a + b)[i] == a[i];
    }
    forall i | 0 <= i < |b| ensures c.fits(b[i]) {
      assert (a + b)[|a| + i] == b[i];
    }
  }

  lemma {:induction false} ScanSegments(c: Codec, segments: seq<seq<Record>>, at: Chain)
    requires Lawful(c) && AllFit(c, Flat(segments))
    ensures Scan(c, SegmentFiles(c, segments), at) ==
      if Chained(c, Flat(segments), at) then Ok(After(Flat(segments), at)) else Err
  {
    hide Lawful, ScanFile, Chained, After;
    var files := SegmentFiles(c, segments);
    if segments == [] {
      EmptyChain(c, at);
      assert files == [];
    } else {
      FitSplit(c, segments[0], Flat(segments[1..]));
      ScanFileOfFrames(c, segments[0], at);
      ChainedConcat(c, segments[0], Flat(segments[1..]), at);
      assert files[1..] == SegmentFiles(c, segments[1..]);
      if Chained(c, segments[0], at) {
        ScanSegments(c, segments[1..], After(segments[0], at));
      }
    }
  }

  lemma {:induction false} EmptyChain(c: Codec, at: Chain)
    ensures Chained(c, [], at) && After([], at) == at
  {
  }

  /** Verification accepts a log, however it was divided into segments, exactly when it is one chain from
      the genesis hash, and reports the hash and sequence the writer resumes from. */
  lemma {:induction false} VerificationExact(c: Codec, segments: seq<seq<Record>>)
    requires Lawful(c) && AllFit(c, Flat(segments))
    ensures var log := Flat(segments);
      var start := Chain(c.genesis, 0);
      && (VerifyHashChain(c, SegmentFiles(c, segments)).Ok? <==> Chained(c, log, start))
      && (Chained(c, log, start) ==>
            && VerifyHashChain(c, SegmentFiles(c, segments)) == Ok(After(log, start))
            && After(log, start).count == |log|
            && (log != [] ==> After(log, start).hash == log[|log| - 1].hash))
  {
    hide Scan, Chained, After;
    ScanSegments(c, segments, Chain(c.genesis, 0));
    AfterCount(Flat(segments), Chain(c.genesis, 0));
  }

  // ----- Repair keeps exactly the complete records -----

  lemma {:induction false} FramesTail(c: Codec, records: seq<Record>, tail: bytes)
    requires Lawful(c) && NEWLINE !in tail
    ensures TailStart(Frames(c, records) + tail) == |Frames(c, records)|
  {
    var front := Frames(c, records);
    var s := front + tail;
    FramesEnd(c, records);
    assert forall i :: |front| <= i < |s| ==> s[i] in tail;
    TailStartUnique(s, |front|);
  }

  lemma {:induction false} FramesEnd(c: Codec, records: seq<Record>)
    ensures records != [] ==> Frames(c, records) != [] && Frames(c, records)[|Frames(c, records)| - 1] == NEWLINE
    ensures records == [] ==> Frames(c, records) == []
  {
    if records != [] {
      FramesEnd(c, records[1..]);
    }
  }

  /** `tail` is a strict prefix of the frame of `r`. */
  predicate StrictPrefix(c: Codec, r: Record, tail: bytes) {
    tail < Frame(c, r)
  }

  lemma {:induction false} PrefixCases(c: Codec, r: Record, tail: bytes)
    requires Lawful(c) && c.fits(r) && StrictPrefix(c, r, tail)
    ensures NEWLINE !in tail && |tail| < MAX_LINE && |tail| <= |c.encode(r)|
    ensures |tail| == |c.encode(r)| ==> tail == c.encode(r)
    ensures 0 < |tail| < |c.encode(r)| ==> c.decode(tail) == Truncated
  {
    var line := c.encode(r);
    assert forall i :: 0 <= i < |tail| ==> tail[i] == Frame(c, r)[i];
    assert tail == line[..|tail|];
    assert forall i :: 0 <= i < |tail| ==> tail[i] == line[i] && line[i] in line;
  }

  /** The records a repair should leave: the complete ones, with the last one if only its newline is missing. */
  function Survivors(c: Codec, records: seq<Record>, r: Record, tail: bytes): seq<Record> {
    if tail == c.encode(r) then records + [r] else records
  }

  lemma {:induction false} FramesSnoc(c: Codec, records: seq<Record>, r: Record)
    ensures Frames(c, records + [r]) == Frames(c, records) + c.encode(r) + [NEWLINE]
  {
    if records == [] {
      assert records + [r] == [r] && [r][1..] == [];
    } else {
      FramesSnoc(c, records[1..], r);
      assert (records + [r])[1..] == records[1..] + [r];
    }
  }

  lemma {:induction false} ScanUnterminated(c: Codec, records: seq<Record>, r: Record, at: Chain)
    requires Lawful(c) && AllFit(c, records) && c.fits(r) && Chained(c, records + [r], at)
    ensures ScanFile(c, Frames(c, records) + c.encode(r), at) == Ok(After(records + [r], at))
  {
    hide Chained, After, ScanLines, Lines, Utf8;
    var line := c.encode(r);
    assert NEWLINE !in line && |line| <= MAX_LINE;
    assert line != [] by { assert !Blank(line); }
    FramesLines(c, records, line);
    assert FrameLines(c, records) + [line] == FrameLines(c, records + [r]);
    ScanFrames(c, records + [r], at);
  }

  lemma {:induction false} ScanSplit(c: Codec, segments: seq<seq<Record>>, active: bytes, at: Chain)
    requires Lawful(c) && AllFit(c, Flat(segments)) && Chained(c, Flat(segments), at)
    ensures Scan(c, SegmentFiles(c, segments) + [active], at) == ScanFile(c, active, After(Flat(segments), at))
  {
    hide Lawful, ScanFile;
    var files := SegmentFiles(c, segments) + [active];
    if segments == [] {
      assert files == [active] && files[1..] == [];
    } else {
      FitSplit(c, segments[0], Flat(segments[1..]));
      ChainedConcat(c, segments[0], Flat(segments[1..]), at);
      ScanFileOfFrames(c, segments[0], at);
      assert files[1..] == SegmentFiles(c, segments[1..]) + [active];
      ScanSplit(c, segments[1..], active, After(segments[0], at));
    }
  }

  /** For any log of complete records over any rotations plus any strict prefix of one more frame, repair
      succeeds exactly when the prefix ends between characters, and then it leaves exactly the complete records. */
  lemma {:induction false} RepairExact(
    c: Codec, segments: seq<seq<Record>>, records: seq<Record>, r: Record, tail: bytes)
    requires Lawful(c) && AllFit(c, Flat(segments)) && AllFit(c, records) && c.fits(r) && StrictPrefix(c, r, tail)
    requires Chained(c, Flat(segments) + records + [r], Chain(c.genesis, 0))
    ensures var active := Frames(c, records) + tail;
      Repair(c, SegmentFiles(c, segments), active) ==
        if Utf8(tail) then Ok(Frames(c, Survivors(c, records, r, tail))) else Err
  {
    hide Chained, After, Utf8, Scan, ScanFile, Lawful;
    var start := Chain(c.genesis, 0);
    var files := SegmentFiles(c, segments);
    var front := Frames(c, records);
    var active := front + tail;
    var line := c.encode(r);
    PrefixCases(c, r, tail);
    FramesTail(c, records, tail);
    FramesEnd(c, records);
    ChainedConcat(c, Flat(segments) + records, [r], start);
    ChainedConcat(c, Flat(segments), records, start);
    var at := After(Flat(segments), start);
    assert active[|front|..] == tail && active[..|front|] == front;
    EncodedFacts(c, r);
    if tail == [] {
      assert active == front;
      EmptyUtf8();
    } else {
      assert active[|active| - 1] == tail[|tail| - 1] && tail[|tail| - 1] in tail;
      if tail == line {
        FramesSnoc(c, records, r);
        assert Flat(segments) + records + [r] == Flat(segments) + (records + [r]);
        ChainedConcat(c, Flat(segments), records + [r], start);
        ScanUnterminated(c, records, r, at);
        ScanSplit(c, segments, active, start);
      } else {
        ScanFileOfFrames(c, records, at);
        ScanSplit(c, segments, front, start);
      }
    }
  }

  lemma {:induction false} EncodedFacts(c: Codec, r: Record)
    requires Lawful(c) && c.fits(r)
    ensures c.encode(r) != [] && Utf8(c.encode(r)) && c.decode(c.encode(r)) == Complete(r)
  {
    assert !Blank(c.encode(r));
  }

  lemma {:induction false} EmptyUtf8()
    ensures Utf8([])
  {
  }

  /** After a successful repair the log verifies, with the state the writer resumes from. */
  lemma {:induction false} RepairedVerifies(
    c: Codec, segments: seq<seq<Record>>, records: seq<Record>, r: Record, tail: bytes)
    requires Lawful(c) && AllFit(c, Flat(segments)) && AllFit(c, records) && c.fits(r) && StrictPrefix(c, r, tail)
      && Utf8(tail)
    requires Chained(c, Flat(segments) + records + [r], Chain(c.genesis, 0))
    ensures var repaired := Repair(c, SegmentFiles(c, segments), Frames(c, records) + tail);
      var log := Flat(segments) + Survivors(c, records, r, tail);
      && repaired.Ok?
      && VerifyHashChain(c, SegmentFiles(c, segments) + [repaired.value]) == Ok(After(log, Chain(c.genesis, 0)))
      && After(log, Chain(c.genesis, 0)).count == |log|
  {
    hide Chained, After, Utf8, Scan, ScanFile, Lawful, Repair;
    var start := Chain(c.genesis, 0);
    var kept := Survivors(c, records, r, tail);
    RepairExact(c, segments, records, r, tail);
    ChainedConcat(c, Flat(segments) + records, [r], start);
    assert Flat(segments) + records + [r] == Flat(segments) + (records + [r]);
    ChainedConcat(c, Flat(segments), kept, start);
    ScanSplit(c, segments, Frames(c, kept), start);
    ScanFileOfFrames(c, kept, After(Flat(segments), start));
    AfterCount(Flat(segments) + kept, start);
  }

  // ----- Which logs survive every cut -----

  predicate Ascii(s: bytes) {
    forall i :: 0 <= i < |s| ==> s[i] <= 0x7F
  }

  lemma {:induction false} AsciiThen(a: bytes, t: bytes)
    requires Ascii(a)
    ensures Utf8(a + t) == Utf8(t)
  {
    if a == [] {
      assert a + t == t;
    } else {
      assert (a + t)[0] == a[0] && (a + t)[1..] == a[1..] + t;
      AsciiThen(a[1..], t);
    }
  }

  lemma {:induction false} LoneLead(b: byte)
    requires b > 0x7F
    ensures !Utf8([b])
  {
  }

  /** A line outside ASCII has a prefix that ends inside a character. */
  lemma {:induction false} SplitPrefix(s: bytes, i: nat)
    requires i < |s| && s[i] > 0x7F
    ensures exists k :: 0 < k <= |s| && !Utf8(s[..k])
  {
    if exists j :: 0 <= j < i && s[j] > 0x7F {
      var j :| 0 <= j < i && s[j] > 0x7F;
      SplitPrefix(s, j);
    } else {
      AsciiThen(s[..i], [s[i]]);
      LoneLead(s[i]);
      assert s[..i + 1] == s[..i] + [s[i]];
    }
  }

  /** Every cut of the next frame can be repaired, if and only if its line is ASCII. */
  lemma {:induction false} EveryCutExact(c: Codec, segments: seq<seq<Record>>, records: seq<Record>, r: Record)
    requires Lawful(c) && AllFit(c, Flat(segments)) && AllFit(c, records) && c.fits(r)
    requires Chained(c, Flat(segments) + records + [r], Chain(c.genesis, 0))
    ensures var rotated, front := SegmentFiles(c, segments), Frames(c, records);
      (forall tail :: StrictPrefix(c, r, tail) ==> Repair(c, rotated, front + tail).Ok?) <==> Ascii(c.encode(r))
  {
    hide Lawful, Chained, Repair, Utf8, Ascii;
    var line := c.encode(r);
    if Ascii(line) {
      forall tail | StrictPrefix(c, r, tail)
        ensures Repair(c, SegmentFiles(c, segments), Frames(c, records) + tail).Ok?
      {
        PrefixCases(c, r, tail);
        AsciiPrefix(line, tail);
        RepairExact(c, segments, records, r, tail);
      }
    } else {
      var k := SplitPlace(line);
      var tail := line[..k];
      assert StrictPrefix(c, r, tail) by { assert Frame(c, r)[..k] == tail; }
      RepairExact(c, segments, records, r, tail);
    }
  }

  lemma {:induction false} AsciiPrefix(line: bytes, tail: bytes)
    requires Ascii(line) && tail <= line
    ensures Utf8(tail)
  {
    AsciiThen(tail, []);
    EmptyUtf8();
    assert tail + [] == tail;
  }

  lemma {:induction false} SplitPlace(line: bytes) returns (k: nat)
    requires !Ascii(line)
    ensures 0 < k <= |line| && !Utf8(line[..k])
  {
    hide Utf8;
    var i: nat :| i < |line| && line[i] > 0x7F;
    SplitPrefix(line, i);
    k :| 0 < k <= |line| && !Utf8(line[..k]);
  }

  // ----- A codec that meets the laws, with a character of two bytes in every line -----

  const TEXT_BEFORE: bytes := [0x7B, 0x22, 0x61, 0x22, 0x3A, 0x22]
  const TWO_BYTES: bytes := [0xC3, 0xA9]
  const MOST_LINES: nat := 1000000

  /** A JSON object with one short text: an accented e, which takes two bytes, and `n` letters after it. */
  function TextLine(n: nat): (s: bytes)
    ensures |s| == n + 10
  {
    TEXT_BEFORE + TWO_BYTES + seq(n, _ => 0x62) + [0x22, 0x7D]
  }

  function TextRecord(n: nat): Record {
    Record(Content(0, Some(n + 1), true, 0), 0)
  }

  predicate IsTextRecord(r: Record) {
    r.content.sequence.Some? && 0 < r.content.sequence.value <= MOST_LINES
      && r == TextRecord(r.content.sequence.value - 1)
  }

  function TextCodec(): Codec {
    Codec(IsTextRecord,
      (r: Record) => if IsTextRecord(r) then TextLine(r.content.sequence.value - 1) else [],
      (s: bytes) => if |s| >= 10 && s == TextLine(|s| - 10) then Complete(TextRecord(|s| - 10)) else Truncated,
      _ => 0, 0, 0)
  }

  lemma {:induction false} TextBytes(n: nat)
    ensures NEWLINE !in TextLine(n) && TextLine(n)[0] == 0x7B
    ensures TextLine(n)[n + 9] == 0x7D && (forall i :: 1 <= i < n + 9 ==> TextLine(n)[i] != 0x7D)
    ensures TextLine(n)[..7] == TEXT_BEFORE + [0xC3]
  {
    assert TextLine(n)[..7] == TEXT_BEFORE + [0xC3];
  }

  lemma {:induction false} TextUtf8(n: nat)
    ensures Utf8(TextLine(n)) && !Utf8(TextLine(n)[..7])
  {
    hide Utf8;
    TextBytes(n);
    var rest := seq(n, _ => 0x62) + [0x22, 0x7D];
    assert Ascii(TEXT_BEFORE) && Ascii(rest);
    AsciiPrefix(rest, rest);
    AccentThen(rest);
    AsciiThen(TEXT_BEFORE, TWO_BYTES + rest);
    assert TextLine(n) == TEXT_BEFORE + (TWO_BYTES + rest);
    AsciiThen(TEXT_BEFORE, [0xC3]);
    LoneLead(0xC3);
  }

  lemma {:induction false} AccentThen(rest: bytes)
    requires Utf8(rest)
    ensures Utf8(TWO_BYTES + rest)
  {
    var s := TWO_BYTES + rest;
    assert s[0] == 0xC3 && s[1] == 0xA9 && s[2..] == rest;
    assert CharLength(s) == 2;
  }

  lemma {:induction false} TextTruncated(n: nat, k: nat)
    requires 0 < k < |TextLine(n)|
    ensures TextCodec().decode(TextLine(n)[..k]) == Truncated
  {
    var s := TextLine(n)[..k];
    if k >= 10 {
      TextBytes(n);
      TextBytes(k - 10);
      assert s[k - 1] != 0x7D;
    }
  }

  /** The laws can be met, by a codec that holds logs of a million records. */
  lemma {:induction false} LawfulCodec()
    ensures Lawful(TextCodec())
  {
    hide Utf8, TextLine;
    var c := TextCodec();
    forall r | c.fits(r)
      ensures NEWLINE !in c.encode(r) && !Blank(c.encode(r)) && Utf8(c.encode(r)) && |c.encode(r)| < MAX_LINE
      ensures c.decode(c.encode(r)) == Complete(r)
    {
      TextBytes(r.content.sequence.value - 1);
      TextUtf8(r.content.sequence.value - 1);
    }
    forall r, k | c.fits(r) && 0 < k < |c.encode(r)| ensures c.decode(c.encode(r)[..k]) == Truncated {
      TextTruncated(r.content.sequence.value - 1, k);
    }
  }

  function TextLog(from: nat, n: nat): seq<Record>
    decreases n
  {
    if n == 0 then [] else [TextRecord(from)] + TextLog(from + 1, n - 1)
  }

  lemma {:induction false} TextLinks(n: nat)
    requires n < MOST_LINES
    ensures TextCodec().fits(TextRecord(n)) && Links(TextCodec(), Chain(0, n), TextRecord(n))
  {
    hide TextLine;
  }

  lemma {:induction false} ChainedCons(c: Codec, r: Record, rest: seq<Record>, at: Chain)
    requires Links(c, at, r) && Chained(c, rest, Chain(r.hash, at.count + 1))
    ensures Chained(c, [r] + rest, at)
  {
    hide Links;
    assert ([r] + rest)[1..] == rest;
  }

  lemma {:induction false} TextChained(from: nat, n: nat)
    requires from + n < MOST_LINES
    ensures var c := TextCodec();
      AllFit(c, TextLog(from, n)) && Chained(c, TextLog(from, n) + [TextRecord(from + n)], Chain(0, from))
    decreases n
  {
    hide TextCodec, Links, Chained;
    var c, last := TextCodec(), [TextRecord(from + n)];
    TextLinks(from);
    if n == 0 {
      EmptyChain(c, Chain(0, from + 1));
      ChainedCons(c, TextRecord(from), [], Chain(0, from));
      assert TextLog(from, n) + last == [TextRecord(from)] + [];
    } else {
      TextChained(from + 1, n - 1);
      var rest := TextLog(from + 1, n - 1);
      ChainedCons(c, TextRecord(from), rest + last, Chain(0, from));
      assert TextLog(from, n) + last == [TextRecord(from)] + (rest + last);
    }
  }

  /** A lawful log the repair refuses: any number of complete records, and after them a frame cut inside a
      character. Only that unacknowledged frame was torn. */
  lemma {:induction false} SplitCharacterBlocksRepair(n: nat)
    requires n < MOST_LINES
    ensures var c, records, r := TextCodec(), TextLog(0, n), TextRecord(n);
      var tail := c.encode(r)[..7];
      && Lawful(c) && AllFit(c, records) && c.fits(r) && Chained(c, records + [r], Chain(c.genesis, 0))
      && StrictPrefix(c, r, tail) && !Utf8(tail)
      && Repair(c, [], Frames(c, records) + tail) == Err
  {
    hide Utf8, TextLine, Lawful, Repair, Chained;
    var c, records, r := TextCodec(), TextLog(0, n), TextRecord(n);
    var tail := c.encode(r)[..7];
    LawfulCodec();
    TextChained(0, n);
    TextUtf8(n);
    assert Frame(c, r)[..7] == tail;
    var segments: seq<seq<Record>> := [];
    assert Flat(segments) + records + [r] == records + [r];
    RepairExact(c, segments, records, r, tail);
    assert SegmentFiles(c, segments) == [];
  }
}
