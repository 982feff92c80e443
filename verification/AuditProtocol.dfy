/** The audit writer of `audit.rs` as a state machine over its atomic steps:
    appenders and the group committer under the state lock, the commit signal,
    frontier freezes, rotation, shutdown, crashes and reopening.

    A run is any sequence of enabled steps, so every interleaving is covered. A
    step that runs under the state lock from end to end is one step; the wake-up
    an appender sends after its write is a step of its own, because the committer
    clears the signal without holding the state lock. */
module AuditProtocol {
  import opened Wrappers

  /** A stored record. `projection` marks the success record of a journal transaction `op`;
      every other record carries an id that is no transaction's. */
  datatype Rec = Rec(op: nat, projection: bool, digest: nat)

  /** The files: complete records in order, how many of them survive a power loss, where the active
      segment begins, whether its directory entry survives, and a record whose newline is missing. */
  datatype Disk = Disk(log: seq<Rec>, synced: nat, segmentStart: nat, linked: bool, tail: Option<Rec>)

  /** An appender blocked until everything up to `frontier` is durable; it then acknowledges record `seqNo`. */
  datatype Wait = Wait(frontier: nat, seqNo: nat, rec: Rec)

  datatype Held = Held(thread: nat, seqNo: nat, rec: Rec)

  datatype Committer = Idle | Cleared | Batch | Done

  datatype Writer = Writer(
    sequence: nat, durable: nat, pending: nat, failed: bool,
    registry: map<nat, (nat, nat)>,
    closed: bool, flushed: bool,
    holder: Option<Held>, waiting: map<nat, Wait>,
    committer: Committer, signalPending: bool, signalClosed: bool)

  /** `acked` is the history of appends that returned Ok: sequence number and record. */
  datatype State = State(disk: Disk, writer: Option<Writer>, acked: set<(nat, Rec)>)

  datatype Rotation = NotNeeded | SyncFails | FailsBefore | CreateFails | FailsAfter | Rotated
  datatype WriteOutcome = Written | Torn | Unterminated | InstallFails

  datatype Step =
    | Append(thread: nat, rec: Rec, isDurable: bool, rotation: Rotation, outcome: WriteOutcome, syncOk: bool)
    | Wake
    | Return(thread: nat)
    | CommitterClear
    | CommitterLock
    | CommitterSync(syncOk: bool)
    | Freeze(syncOk: bool)
    | Close
    | ShutdownFlush(syncOk: bool)
    | SignalClose
    | ProcessCrash
    | PowerLoss(keep: nat, keepTail: bool)
    | Open

  // ----- Steps under the state lock -----

  predicate LockFree(w: Writer) {
    w.holder.None?
  }

  /** A successful `sync_all` covers every record written so far. */
  function Synced(d: Disk): Disk {
    d.(synced := |d.log|)
  }

  function Drained(w: Writer): Writer {
    w.(durable := w.sequence, pending := 0)
  }

  function Flush(s: State, w: Writer): State {
    s.(disk := Synced(s.disk), writer := Some(Drained(w)))
  }

  function Ack(s: State, seqNo: nat, rec: Rec): State {
    s.(acked := s.acked + {(seqNo, rec)})
  }

  /** A retry of a known projection: wait for everything written so far, then acknowledge the first record. */
  function AppendKnown(s: State, w: Writer, thread: nat, rec: Rec): State
    requires rec.op in w.registry
  {
    var (seqNo, digest) := w.registry[rec.op];
    if digest != rec.digest then s
    else if w.durable >= w.sequence then Ack(s, seqNo, rec)
    else s.(writer := Some(w.(waiting := w.waiting[thread := Wait(w.sequence, seqNo, rec)])))
  }

  /** Rotation before the write, and whether the append goes on. A failure up to the first synchronization of the
      directory changes no entry's durability. If only creating the new file fails, the old one, still the active
      one, has had its entry synchronized. A failure after the new file was created leaves the writer on a file
      whose directory entry was never synchronized. */
  function Rotate(s: State, w: Writer, rotation: Rotation): (State, bool)
    requires s.writer == Some(w)
  {
    match rotation
    case NotNeeded => (s, true)
    case SyncFails => (s, false)
    case FailsBefore => (Flush(s, w), false)
    case CreateFails => (Linked(Flush(s, w)), false)
    case FailsAfter => (OnNewSegment(Flush(s, w), false), false)
    case Rotated => (OnNewSegment(Flush(s, w), true), true)
  }

  function Linked(s: State): State {
    s.(disk := s.disk.(linked := true))
  }

  function OnNewSegment(s: State, linked: bool): State {
    s.(disk := s.disk.(segmentStart := |s.disk.log|, linked := linked))
  }

  function Registered(registry: map<nat, (nat, nat)>, rec: Rec, seqNo: nat): map<nat, (nat, nat)> {
    if rec.projection then registry[rec.op := (seqNo, rec.digest)] else registry
  }

  function AppendNew(s: State, w: Writer, step: Step): State
    requires step.Append?
  {
    if step.outcome.Torn? then s.(writer := Some(w.(failed := true)))
    else if step.outcome.Unterminated? then
      s.(disk := s.disk.(tail := Some(step.rec)), writer := Some(w.(failed := true)))
    else
      var next := w.sequence + 1;
      var disk := s.disk.(log := s.disk.log + [step.rec]);
      if step.outcome.InstallFails? then s.(disk := disk, writer := Some(w.(sequence := next, failed := true)))
      else
        var w' := w.(sequence := next, registry := Registered(w.registry, step.rec, next));
        if !step.isDurable then
          s.(disk := disk,
            writer := Some(w'.(pending := w.pending + 1, holder := Some(Held(step.thread, next, step.rec)))))
        else if step.syncOk then
          Ack(s.(disk := Synced(disk), writer := Some(Drained(w'))), next, step.rec)
        else s.(disk := disk, writer := Some(w'.(failed := true)))
  }

  function AppendStep(s: State, w: Writer, step: Step): State
    requires step.Append? && s.writer == Some(w)
  {
    if w.closed || w.failed then s
    else if step.rec.projection && step.rec.op in w.registry then AppendKnown(s, w, step.thread, step.rec)
    else
      var (rotated, ok) := Rotate(s, w, step.rotation);
      if ok && rotated.writer.Some? then AppendNew(rotated, rotated.writer.value, step) else rotated
  }

  // ----- Every step -----

  function UpStep(s: State, w: Writer, step: Step): Option<State>
    requires s.writer == Some(w)
  {
    match step
    case Append(thread, _, _, _, _, _) =>
      if LockFree(w) && thread !in w.waiting then Some(AppendStep(s, w, step)) else None
    case Wake =>
      if LockFree(w) then None
      else
        var h := w.holder.value;
        Some(s.(writer := Some(w.(signalPending := true, holder := None,
                                  waiting := w.waiting[h.thread := Wait(h.seqNo, h.seqNo, h.rec)]))))
    case Return(thread) =>
      if LockFree(w) && thread in w.waiting && (w.durable >= w.waiting[thread].frontier || w.failed) then
        var wait := w.waiting[thread];
        var left := s.(writer := Some(w.(waiting := w.waiting - {thread})));
        Some(if w.failed then left else Ack(left, wait.seqNo, wait.rec))
      else None
    case CommitterClear =>
      if !w.committer.Idle? || !(w.signalPending || w.signalClosed) then None
      else if w.signalClosed then Some(s.(writer := Some(w.(committer := Done))))
      else Some(s.(writer := Some(w.(committer := Cleared, signalPending := false))))
    case CommitterLock =>
      if w.committer.Cleared? && LockFree(w)
      then Some(s.(writer := Some(w.(committer := if w.pending == 0 then Idle else Batch))))
      else None
    case CommitterSync(syncOk) =>
      if !LockFree(w) || !w.committer.Batch? then None
      else if syncOk then
        // With an error already set the committer synchronizes once more and then stops.
        Some(Flush(s, w.(committer := if w.failed then Done else Idle)))
      else Some(s.(writer := Some(w.(failed := true, committer := Done))))
    case Freeze(syncOk) =>
      if !LockFree(w) then None
      else Some(if w.failed || !syncOk then s else Flush(s, w))
    case Close => Some(s.(writer := Some(w.(closed := true))))
    case ShutdownFlush(syncOk) =>
      if !LockFree(w) || !w.closed then None
      else if w.pending == 0 then Some(s.(writer := Some(Drained(w).(flushed := true))))
      else if syncOk then Some(Flush(s, w.(flushed := true)))
      else Some(s.(writer := Some(w.(failed := true, flushed := true))))
    case SignalClose => if w.flushed then Some(s.(writer := Some(w.(signalClosed := true)))) else None
    case ProcessCrash => Some(s.(writer := None))
    case PowerLoss(keep, keepTail) => LosePower(s, keep, keepTail)
    case Open => None
  }

  /** What a power loss cannot take: the synchronized records, except those of an unlinked segment. */
  function Guaranteed(d: Disk): nat {
    if d.linked then d.synced else d.segmentStart
  }

  function LosePower(s: State, keep: nat, keepTail: bool): Option<State> {
    var d := s.disk;
    if Guaranteed(d) <= keep <= |d.log| then
      var tail := if keepTail && keep == |d.log| then d.tail else None;
      var synced := if d.synced <= keep then d.synced else keep;
      var start := if d.segmentStart <= keep then d.segmentStart else keep;
      Some(s.(writer := None, disk := Disk(d.log[..keep], synced, start, d.linked, tail)))
    else None
  }

  /** The registry rebuilt by the recovery scan. */
  function Registry(log: seq<Rec>): map<nat, (nat, nat)> {
    if log == [] then map[]
    else
      var n := |log| - 1;
      Registered(Registry(log[..n]), log[n], n + 1)
  }

  /** Repair the tail, scan, synchronize the file and both directories, then start the committer. */
  function OpenStep(s: State): State {
    var log := if s.disk.tail.Some? then s.disk.log + [s.disk.tail.value] else s.disk.log;
    var n := |log|;
    var start := if s.disk.segmentStart <= n then s.disk.segmentStart else n;
    s.(disk := Disk(log, n, start, true, None),
       writer := Some(Writer(n, n, 0, false, Registry(log), false, false, None, map[], Idle, false, false)))
  }

  function Apply(s: State, step: Step): Option<State> {
    match s.writer
    case Some(w) => UpStep(s, w, step)
    case None =>
      match step
      case Open => Some(OpenStep(s))
      case PowerLoss(keep, keepTail) => LosePower(s, keep, keepTail)
      case _ => None
  }

  const INITIAL: State := State(Disk([], 0, 0, true, None), None, {})

  /** The state after a run; None when some step was not enabled. */
  function Run(steps: seq<Step>): Option<State> {
    if steps == [] then Some(INITIAL)
    else
      var n := |steps| - 1;
      match Run(steps[..n])
      case None => None
      case Some(s) => Apply(s, steps[n])
  }

  // ----- The invariant -----

  /** A transaction has at most one success record. */
  predicate AtMostOnce(log: seq<Rec>) {
    forall i, j :: 0 <= i < j < |log| && log[i].projection && log[j].projection ==> log[i].op != log[j].op
  }

  predicate RegistryExact(registry: map<nat, (nat, nat)>, log: seq<Rec>) {
    && (forall i :: 0 <= i < |log| && log[i].projection ==> log[i].op in registry)
    && (forall op :: op in registry ==>
          && 1 <= registry[op].0 <= |log|
          && log[registry[op].0 - 1] == Rec(op, true, registry[op].1))
  }

  predicate DiskValid(d: Disk) {
    && d.segmentStart <= d.synced <= |d.log|
    && AtMostOnce(if d.tail.Some? then d.log + [d.tail.value] else d.log)
  }

  /** While no error is set: the counters agree with the file and with each other. */
  predicate Healthy(d: Disk, w: Writer) {
    && w.durable <= d.synced
    && w.durable + w.pending == w.sequence
    && d.tail.None?
    && RegistryExact(w.registry, d.log)
    && (forall t :: t in w.waiting ==> WaitValid(d, w, w.waiting[t]))
  }

  predicate WaitValid(d: Disk, w: Writer, wait: Wait) {
    1 <= wait.seqNo <= wait.frontier <= w.sequence && wait.seqNo <= |d.log| && d.log[wait.seqNo - 1] == wait.rec
  }

  /** Records are waiting for the group commit, and the committer will learn of it. */
  predicate NoLostWakeup(w: Writer) {
    LockFree(w) && w.pending > 0 && !w.failed ==> w.signalPending || w.committer.Cleared? || w.committer.Batch?
  }

  predicate WriterValid(d: Disk, w: Writer) {
    && w.sequence == |d.log|
    && (!w.failed ==> Healthy(d, w))
    && (w.holder.Some? ==>
          !w.failed && w.holder.value.seqNo == |d.log| > 0 && d.log[|d.log| - 1] == w.holder.value.rec)
    && NoLostWakeup(w)
    && (w.signalClosed ==> w.flushed)
    && (w.flushed ==> w.closed && LockFree(w) && (w.failed || w.pending == 0))
    && (w.committer.Done? ==> w.failed || w.flushed)
  }

  predicate Structured(s: State) {
    && DiskValid(s.disk)
    && (s.writer.Some? ==> WriterValid(s.disk, s.writer.value))
  }

  /** Every acknowledged append is in the log, at its sequence number, and synchronized. */
  predicate AckedKept(s: State) {
    forall a :: a in s.acked ==>
      && 1 <= a.0 <= s.disk.synced
      && s.disk.synced <= |s.disk.log|
      && s.disk.log[a.0 - 1] == a.1
  }

  /** Some acknowledged record lies in a segment whose directory entry may not survive. */
  predicate AtRisk(s: State) {
    !s.disk.linked && exists a :: a in s.acked && a.0 > s.disk.segmentStart
  }

  // ----- One step -----

  lemma {:induction false} StillAtMostOnce(log: seq<Rec>, registry: map<nat, (nat, nat)>, rec: Rec)
    requires AtMostOnce(log) && RegistryExact(registry, log) && (rec.projection ==> rec.op !in registry)
    ensures AtMostOnce(log + [rec])
    ensures RegistryExact(Registered(registry, rec, |log| + 1), log + [rec])
  {
    forall i | 0 <= i < |log| && log[i].projection && rec.projection ensures log[i].op != rec.op {
      assert log[i].op in registry;
    }
  }

  lemma {:induction false} WaitsStay(d: Disk, w: Writer, d': Disk, w': Writer)
    requires forall t :: t in w.waiting ==> WaitValid(d, w, w.waiting[t])
    requires d.log <= d'.log && w.sequence <= w'.sequence && w'.waiting == w.waiting
    ensures forall t :: t in w'.waiting ==> WaitValid(d', w', w'.waiting[t])
  {
    forall t | t in w.waiting ensures WaitValid(d', w', w.waiting[t]) {
      assert WaitValid(d, w, w.waiting[t]);
    }
  }

  lemma {:induction false} AckedStay(s: State, s': State)
    requires AckedKept(s) && s'.acked == s.acked && s.disk.log <= s'.disk.log
      && s.disk.synced <= s'.disk.synced <= |s'.disk.log|
    ensures AckedKept(s')
  {
  }

  lemma {:induction false} AppendNewKeeps(s: State, w: Writer, step: Step)
    requires step.Append? && s.writer == Some(w) && Structured(s) && LockFree(w) && !w.failed && !w.closed
    requires step.rec.projection ==> step.rec.op !in w.registry
    ensures Structured(AppendNew(s, w, step))
    ensures AckedKept(s) ==> AckedKept(AppendNew(s, w, step))
  {
    hide AckedKept, AtMostOnce, RegistryExact, WaitValid, Registered;
    StillAtMostOnce(s.disk.log, w.registry, step.rec);
    if step.outcome.Written? {
      var s' := AppendNew(s, w, step);
      WaitsStay(s.disk, w, s'.disk, s'.writer.value);
    }
    if AckedKept(s) {
      AppendNewAcks(s, w, step);
    }
  }

  lemma {:induction false} AppendNewAcks(s: State, w: Writer, step: Step)
    requires step.Append? && s.writer == Some(w) && DiskValid(s.disk) && w.sequence == |s.disk.log| && AckedKept(s)
    ensures AckedKept(AppendNew(s, w, step))
  {
    hide AtMostOnce, AckedKept, Registered;
    var s' := AppendNew(s, w, step);
    var before := s'.(acked := s.acked);
    AckedStay(s, before);
    if step.outcome.Written? && step.isDurable && step.syncOk {
      AckedMore(before, |s.disk.log| + 1, step.rec);
      assert s' == Ack(before, |s.disk.log| + 1, step.rec);
    } else {
      assert s' == before;
    }
  }

  lemma {:induction false} AckedMore(s: State, seqNo: nat, rec: Rec)
    requires AckedKept(s) && 1 <= seqNo <= s.disk.synced <= |s.disk.log| && s.disk.log[seqNo - 1] == rec
    ensures AckedKept(Ack(s, seqNo, rec))
  {
  }

  lemma {:induction false} RotateKeeps(s: State, w: Writer, rotation: Rotation)
    requires s.writer == Some(w) && Structured(s) && LockFree(w) && !w.failed && !w.closed
    ensures var (r, ok) := Rotate(s, w, rotation);
      && Structured(r) && r.writer.Some? && LockFree(r.writer.value) && !r.writer.value.failed && !r.writer.value.closed
      && r.writer.value.registry == w.registry && r.writer.value.waiting == w.waiting
      && (AckedKept(s) ==> AckedKept(r))
  {
    assert forall t :: t in w.waiting ==> WaitValid(s.disk, w, w.waiting[t]);
  }

  lemma {:induction false} AppendKeeps(s: State, w: Writer, step: Step)
    requires step.Append? && s.writer == Some(w) && Structured(s) && LockFree(w)
    ensures Structured(AppendStep(s, w, step))
    ensures AckedKept(s) ==> AckedKept(AppendStep(s, w, step))
  {
    hide AppendNew, Rotate, DiskValid;
    if w.closed || w.failed {
    } else if step.rec.projection && step.rec.op in w.registry {
      assert forall t :: t in w.waiting ==> WaitValid(s.disk, w, w.waiting[t]);
      KnownKeeps(s, w, step.thread, step.rec);
    } else {
      RotateKeeps(s, w, step.rotation);
      var (r, ok) := Rotate(s, w, step.rotation);
      if ok {
        AppendNewKeeps(r, r.writer.value, step);
      }
    }
  }

  lemma {:induction false} KnownKeeps(s: State, w: Writer, thread: nat, rec: Rec)
    requires s.writer == Some(w) && Structured(s) && LockFree(w) && !w.failed && rec.projection && rec.op in w.registry
    ensures Structured(AppendKnown(s, w, thread, rec))
    ensures AckedKept(s) ==> AckedKept(AppendKnown(s, w, thread, rec))
  {
    assert forall t :: t in w.waiting ==> WaitValid(s.disk, w, w.waiting[t]);
  }

  lemma {:induction false} FlushKeeps(s: State, w: Writer, w': Writer)
    requires s.writer == Some(w) && Structured(s) && LockFree(w)
    requires w' == w.(committer := w'.committer, flushed := w'.flushed)
    requires w'.flushed ==> w.closed
    requires w'.committer.Done? ==> w.failed || w'.flushed
    requires w.flushed ==> w'.flushed
    ensures Structured(Flush(s, w'))
    ensures AckedKept(s) ==> AckedKept(Flush(s, w'))
  {
    if !w.failed {
      assert forall t :: t in w.waiting ==> WaitValid(s.disk, w, w.waiting[t]);
    }
  }

  lemma {:induction false} CommitKeeps(s: State, w: Writer, step: Step)
    requires s.writer == Some(w) && Structured(s) && UpStep(s, w, step).Some?
    requires step.CommitterClear? || step.CommitterLock? || step.CommitterSync? || step.Freeze? || step.Close?
      || step.ShutdownFlush? || step.SignalClose?
    ensures Structured(UpStep(s, w, step).value)
    ensures AckedKept(s) ==> AckedKept(UpStep(s, w, step).value)
  {
    hide DiskValid;
    if !w.failed {
      assert forall t :: t in w.waiting ==> WaitValid(s.disk, w, w.waiting[t]);
    }
    if step.CommitterSync? && step.syncOk {
      FlushKeeps(s, w, w.(committer := if w.failed then Done else Idle));
    } else if step.Freeze? && step.syncOk && !w.failed {
      FlushKeeps(s, w, w);
    } else if step.ShutdownFlush? && w.pending != 0 && step.syncOk {
      FlushKeeps(s, w, w.(flushed := true));
    }
  }

  lemma {:induction false} WaitKeeps(s: State, w: Writer, step: Step)
    requires s.writer == Some(w) && Structured(s) && UpStep(s, w, step).Some?
    requires step.Wake? || step.Return?
    ensures Structured(UpStep(s, w, step).value)
    ensures AckedKept(s) ==> AckedKept(UpStep(s, w, step).value)
  {
    hide AtMostOnce;
    if !w.failed {
      assert forall t :: t in w.waiting ==> WaitValid(s.disk, w, w.waiting[t]);
    }
  }

  lemma {:induction false} AtMostOncePrefix(log: seq<Rec>, tail: Option<Rec>, keep: nat)
    requires AtMostOnce(if tail.Some? then log + [tail.value] else log) && keep <= |log|
    ensures AtMostOnce(log[..keep])
  {
    var all := if tail.Some? then log + [tail.value] else log;
    assert log[..keep] == all[..keep];
  }

  lemma {:induction false} PowerLossKeeps(s: State, keep: nat, keepTail: bool)
    requires Structured(s) && LosePower(s, keep, keepTail).Some?
    ensures Structured(LosePower(s, keep, keepTail).value)
    ensures AckedKept(s) && !AtRisk(s) ==> AckedKept(LosePower(s, keep, keepTail).value)
  {
    AtMostOncePrefix(s.disk.log, s.disk.tail, keep);
    if keep == |s.disk.log| {
      assert s.disk.log[..keep] == s.disk.log;
    }
  }

  /** The recovery scan registers exactly the projections in the log. */
  lemma {:induction false} RegistryOfLog(log: seq<Rec>)
    requires AtMostOnce(log)
    ensures RegistryExact(Registry(log), log)
  {
    if log != [] {
      var n := |log| - 1;
      var front := log[..n];
      AtMostOncePrefix(log, None, n);
      RegistryOfLog(front);
      assert log == front + [log[n]];
      assert log[n].projection ==> log[n].op !in Registry(front);
      StillAtMostOnce(front, Registry(front), log[n]);
    }
  }

  lemma {:induction false} OpenKeeps(s: State)
    requires Structured(s) && s.writer.None?
    ensures Structured(OpenStep(s))
    ensures AckedKept(s) ==> AckedKept(OpenStep(s))
  {
    RegistryOfLog(OpenStep(s).disk.log);
  }

  /** Every step keeps the structure, and keeps what was acknowledged unless it is a power loss at risk. */
  lemma {:induction false} StepKeeps(s: State, step: Step)
    requires Structured(s) && Apply(s, step).Some?
    ensures Structured(Apply(s, step).value)
    ensures AckedKept(s) && !(step.PowerLoss? && AtRisk(s)) ==> AckedKept(Apply(s, step).value)
  {
    hide Structured, AckedKept, AtRisk, AppendStep, LosePower, OpenStep;
    if step.PowerLoss? {
      PowerLossKeeps(s, step.keep, step.keepTail);
    } else if s.writer.None? {
      OpenKeeps(s);
    } else {
      var w := s.writer.value;
      match step
      case Append(_, _, _, _, _, _) => AppendKeeps(s, w, step);
      case Wake => WaitKeeps(s, w, step);
      case Return(_) => WaitKeeps(s, w, step);
      case ProcessCrash => CrashKeeps(s);
      case _ => CommitKeeps(s, w, step);
    }
  }

  lemma {:induction false} CrashKeeps(s: State)
    requires Structured(s)
    ensures Structured(s.(writer := None))
    ensures AckedKept(s) ==> AckedKept(s.(writer := None))
  {
  }

  // ----- Every run -----

  lemma {:induction false} RunStructured(steps: seq<Step>)
    requires Run(steps).Some?
    ensures Structured(Run(steps).value)
  {
    hide Apply, Structured;
    if steps == [] {
      InitialStructured();
    } else {
      var n := |steps| - 1;
      RunStructured(steps[..n]);
      StepKeeps(Run(steps[..n]).value, steps[n]);
    }
  }

  lemma {:induction false} InitialStructured()
    ensures Structured(INITIAL) && AckedKept(INITIAL)
  {
  }

  /** No power loss strikes while an acknowledged record is at risk. */
  predicate PowerLossesSafe(steps: seq<Step>)
    requires Run(steps).Some?
  {
    if steps == [] then true
    else
      var n := |steps| - 1;
      PowerLossesSafe(steps[..n]) && !(steps[n].PowerLoss? && AtRisk(Run(steps[..n]).value))
  }

  /** Acknowledged appends survive: in every run, each append that returned Ok is in the log at its sequence. */
  lemma {:induction false} AckedSurvive(steps: seq<Step>)
    requires Run(steps).Some? && PowerLossesSafe(steps)
    ensures AckedKept(Run(steps).value)
  {
    hide Apply, Structured, AckedKept, AtRisk;
    if steps == [] {
      InitialStructured();
    } else {
      var n := |steps| - 1;
      AckedSurvive(steps[..n]);
      RunStructured(steps[..n]);
      StepKeeps(Run(steps[..n]).value, steps[n]);
    }
  }

  /** No rotation failed between creating the new segment and synchronizing its directory. */
  predicate NoUnlinkedRotation(steps: seq<Step>) {
    forall i :: 0 <= i < |steps| && steps[i].Append? ==> !steps[i].rotation.FailsAfter?
  }

  lemma {:induction false} StepLinked(s: State, step: Step)
    requires Apply(s, step).Some? && s.disk.linked && (step.Append? ==> !step.rotation.FailsAfter?)
    ensures Apply(s, step).value.disk.linked
  {
  }

  lemma {:induction false} AlwaysLinked(steps: seq<Step>)
    requires Run(steps).Some? && NoUnlinkedRotation(steps)
    ensures Run(steps).value.disk.linked && PowerLossesSafe(steps)
  {
    hide Apply;
    if steps != [] {
      var n := |steps| - 1;
      AlwaysLinked(steps[..n]);
      StepLinked(Run(steps[..n]).value, steps[n]);
    }
  }

  /** In particular without a torn rotation, whatever else fails and however often the machine goes down. */
  lemma {:induction false} AckedSurviveLinked(steps: seq<Step>)
    requires Run(steps).Some? && NoUnlinkedRotation(steps)
    ensures AckedKept(Run(steps).value)
  {
    AlwaysLinked(steps);
    AckedSurvive(steps);
  }

  /** The condition is exact: a power loss may lose an acknowledged record in just the states at risk. */
  lemma {:induction false} RiskIsExact(s: State)
    requires Structured(s) && AckedKept(s)
    ensures AtRisk(s) <==> exists keep, keepTail ::
      LosePower(s, keep, keepTail).Some? && !AckedKept(LosePower(s, keep, keepTail).value)
  {
    if AtRisk(s) {
      var keep := s.disk.segmentStart;
      var lost := LosePower(s, keep, false);
      assert lost.Some?;
      var a :| a in s.acked && a.0 > keep;
      assert !AckedKept(lost.value);
    } else {
      forall keep, keepTail | LosePower(s, keep, keepTail).Some? ensures AckedKept(LosePower(s, keep, keepTail).value) {
        PowerLossKeeps(s, keep, keepTail);
      }
    }
  }

  /** The property fails in a run of five steps: a rotation that creates the new segment and then fails
      lets the next durable append be acknowledged in a file the directory may forget. */
  lemma {:induction false} TornRotationLosesAck(first: Rec, second: Rec)
    requires !first.projection && !second.projection
    ensures var steps := [Open,
                          Append(0, first, true, NotNeeded, Written, true),
                          Append(0, second, true, FailsAfter, Written, true),
                          Append(0, second, true, NotNeeded, Written, true),
                          PowerLoss(1, false)];
      && Run(steps).Some?
      && (2, second) in Run(steps).value.acked
      && |Run(steps).value.disk.log| == 1
  {
    var steps := [Open,
                  Append(0, first, true, NotNeeded, Written, true),
                  Append(0, second, true, FailsAfter, Written, true),
                  Append(0, second, true, NotNeeded, Written, true),
                  PowerLoss(1, false)];
    assert steps[..4][..3][..2][..1][..0] == [];
    var s1 := OpenStep(INITIAL);
    assert Run(steps[..1]) == Some(s1) by { assert steps[..1][..0] == []; }
    var s2 := AppendStep(s1, s1.writer.value, steps[1]);
    assert Run(steps[..2]) == Some(s2) by { assert steps[..2][..1] == steps[..1]; }
    var s3 := AppendStep(s2, s2.writer.value, steps[2]);
    assert Run(steps[..3]) == Some(s3) by { assert steps[..3][..2] == steps[..2]; }
    var s4 := AppendStep(s3, s3.writer.value, steps[3]);
    assert Run(steps[..4]) == Some(s4) by { assert steps[..4][..3] == steps[..3]; }
    assert steps[..5] == steps;
    assert s4.disk.log == [first, second] && !s4.disk.linked && s4.disk.segmentStart == 1;
  }

  function Count(log: seq<Rec>, op: nat): nat {
    if log == [] then 0
    else Count(log[..|log| - 1], op) + (if log[|log| - 1].projection && log[|log| - 1].op == op then 1 else 0)
  }

  lemma {:induction false} CountBound(log: seq<Rec>, op: nat)
    requires AtMostOnce(log)
    ensures Count(log, op) <= 1
    ensures Count(log, op) == 1 <==> exists i :: 0 <= i < |log| && log[i].projection && log[i].op == op
  {
    if log != [] {
      var n := |log| - 1;
      AtMostOncePrefix(log, None, n);
      CountBound(log[..n], op);
      assert forall i :: 0 <= i < n ==> log[..n][i] == log[i];
    }
  }

  /** Exactly once: in every run a transaction has at most one success record, and exactly one
      from the moment a projection of it returned Ok. */
  lemma {:induction false} ProjectedOnce(steps: seq<Step>, op: nat)
    requires Run(steps).Some? && PowerLossesSafe(steps)
    ensures var s := Run(steps).value;
      && Count(s.disk.log, op) <= 1
      && ((exists a :: a in s.acked && a.1.projection && a.1.op == op) ==> Count(s.disk.log, op) == 1)
  {
    hide Apply, WriterValid;
    var s := Run(steps).value;
    RunStructured(steps);
    AckedSurvive(steps);
    AtMostOncePrefix(s.disk.log, s.disk.tail, |s.disk.log|);
    assert s.disk.log[..|s.disk.log|] == s.disk.log;
    CountBound(s.disk.log, op);
    forall a | a in s.acked && a.1.projection && a.1.op == op ensures Count(s.disk.log, op) == 1 {
      assert s.disk.log[a.0 - 1].op == op;
    }
  }

  /** No lost wake-up, in every run: with the lock free, records pending and no error, the signal is
      pending or the committer is between clearing it and its synchronization. */
  lemma {:induction false} WakeupNotLost(steps: seq<Step>)
    requires Run(steps).Some? && Run(steps).value.writer.Some?
    ensures NoLostWakeup(Run(steps).value.writer.value)
  {
    hide Apply;
    RunStructured(steps);
  }

  /** The steps the committer takes from where it stands to a successful synchronization. */
  function CommitterPath(c: Committer): seq<Step> {
    match c
    case Idle => [CommitterClear, CommitterLock, CommitterSync(true)]
    case Cleared => [CommitterLock, CommitterSync(true)]
    case Batch => [CommitterSync(true)]
    case Done => []
  }

  function RunFrom(s: State, steps: seq<Step>): Option<State>
    decreases |steps|
  {
    if steps == [] then Some(s)
    else
      match Apply(s, steps[0])
      case None => None
      case Some(next) => RunFrom(next, steps[1..])
  }

  /** The path is enabled whenever the wake-up is not lost, and drains the pending records. */
  lemma {:induction false} PathDrains(s: State, w: Writer)
    requires s.writer == Some(w) && LockFree(w) && !w.failed && w.pending > 0 && !w.committer.Done?
    requires w.committer.Idle? ==> w.signalPending && !w.signalClosed
    ensures var end := RunFrom(s, CommitterPath(w.committer));
      && end.Some? && end.value.writer.Some?
      && var w' := end.value.writer.value;
      LockFree(w') && !w'.failed && w'.waiting == w.waiting && w'.durable == w.sequence
    decreases match w.committer { case Idle => 2 case Cleared => 1 case _ => 0 }
  {
    var path := CommitterPath(w.committer);
    var next := Apply(s, path[0]).value;
    if w.committer.Batch? {
      assert path[1..] == [];
    } else {
      assert path[1..] == CommitterPath(next.writer.value.committer);
      PathDrains(next, next.writer.value);
    }
  }

  /** What the wake-up is for: in every reachable state a blocked appender gets its Ok after at most
      three steps of the committer, if the synchronization succeeds. */
  lemma {:induction false} WaiterReleased(steps: seq<Step>, thread: nat)
    requires Run(steps).Some? && Run(steps).value.writer.Some?
    requires var w := Run(steps).value.writer.value; LockFree(w) && !w.failed && thread in w.waiting
    ensures var s := Run(steps).value;
      var w := s.writer.value;
      var end := RunFrom(s, if w.pending == 0 then [] else CommitterPath(w.committer));
      && end.Some?
      && Apply(end.value, Return(thread)).Some?
      && (w.waiting[thread].seqNo, w.waiting[thread].rec) in Apply(end.value, Return(thread)).value.acked
  {
    RunStructured(steps);
    var s := Run(steps).value;
    var w := s.writer.value;
    assert WaitValid(s.disk, w, w.waiting[thread]);
    if w.pending > 0 {
      PathDrains(s, w);
    }
  }

  // ----- What an append does -----

  /** Open for appends: nothing failed, nobody holds the lock, and the thread is not waiting already. */
  predicate Accepting(s: State, thread: nat) {
    s.writer.Some? && var w := s.writer.value; !w.closed && !w.failed && LockFree(w) && thread !in w.waiting
  }

  /** Everything written is known to be durable. */
  predicate AllDurable(s: State) {
    s.writer.Some? && s.writer.value.durable == |s.disk.log|
  }

  lemma {:induction false} RunThen(steps: seq<Step>, step: Step)
    requires Run(steps).Some?
    ensures Run(steps + [step]) == Apply(Run(steps).value, step)
  {
    hide Apply;
    assert (steps + [step])[..|steps|] == steps;
  }

  /** In a structured state the registry knows a projection in the log by its place and digest. */
  lemma {:induction false} RegistryKnows(s: State, n: nat)
    requires Structured(s) && s.writer.Some? && !s.writer.value.failed && n < |s.disk.log| && s.disk.log[n].projection
    ensures var rec, registry := s.disk.log[n], s.writer.value.registry;
      rec.op in registry && registry[rec.op] == (n + 1, rec.digest)
  {
    var rec, w := s.disk.log[n], s.writer.value;
    assert Healthy(s.disk, w);
    var (place, digest) := w.registry[rec.op];
    assert s.disk.log[place - 1] == Rec(rec.op, true, digest);
    SameProjection(s.disk, place - 1, n);
  }

  lemma {:induction false} SameProjection(d: Disk, i: nat, j: nat)
    requires DiskValid(d) && i < |d.log| && j < |d.log|
    requires d.log[i].projection && d.log[j].projection && d.log[i].op == d.log[j].op
    ensures i == j
  {
    var all := if d.tail.Some? then d.log + [d.tail.value] else d.log;
    assert all[i] == d.log[i] && all[j] == d.log[j];
  }

  /** A retried projection writes nothing. With everything durable it is acknowledged at once, under the sequence
      number of the record it repeats; otherwise its thread waits, and after the committer's steps it gets that
      acknowledgement. */
  lemma {:induction false} RetryAcknowledged(steps: seq<Step>, append: Step, n: nat)
    requires Run(steps).Some? && append.Append? && Accepting(Run(steps).value, append.thread)
    requires n < |Run(steps).value.disk.log| && append.rec == Run(steps).value.disk.log[n] && append.rec.projection
    ensures var s := Run(steps).value; var next := Run(steps + [append]);
      && next.Some? && next.value.disk == s.disk && next.value.writer.Some?
      && (AllDurable(s) ==> next.value.acked == s.acked + {(n + 1, append.rec)})
      && (!AllDurable(s) ==>
            && next.value.acked == s.acked
            && var end := RunFrom(next.value, CommitterPath(next.value.writer.value.committer));
            && end.Some? && Apply(end.value, Return(append.thread)).Some?
            && (n + 1, append.rec) in Apply(end.value, Return(append.thread)).value.acked)
  {
    hide Structured, CommitterPath, RunFrom, Run, RegistryExact, AtMostOnce;
    var s := Run(steps).value;
    RunStructured(steps);
    RunThen(steps, append);
    RegistryKnows(s, n);
    CountersAgree(s);
    if !AllDurable(s) {
      WaiterReleased(steps + [append], append.thread);
    }
  }

  lemma {:induction false} CountersAgree(s: State)
    requires Structured(s) && s.writer.Some? && !s.writer.value.failed
    ensures var w := s.writer.value; w.sequence == |s.disk.log| && w.durable + w.pending == w.sequence
  {
  }

  /** A retry that changes what it says is refused: nothing is acknowledged and nothing is written. */
  lemma {:induction false} ChangedRetryRefused(steps: seq<Step>, append: Step, n: nat)
    requires Run(steps).Some? && append.Append? && Accepting(Run(steps).value, append.thread)
    requires n < |Run(steps).value.disk.log| && Run(steps).value.disk.log[n].projection
    requires append.rec.projection && append.rec.op == Run(steps).value.disk.log[n].op
    requires append.rec.digest != Run(steps).value.disk.log[n].digest
    ensures Run(steps + [append]) == Run(steps)
  {
    hide Structured, Run, RegistryExact, AtMostOnce;
    RunStructured(steps);
    RunThen(steps, append);
    RegistryKnows(Run(steps).value, n);
  }

  /** The record is not a projection the log holds already. */
  predicate Fresh(s: State, rec: Rec) {
    rec.projection ==> forall n :: 0 <= n < |s.disk.log| && s.disk.log[n].projection ==> s.disk.log[n].op != rec.op
  }

  lemma {:induction false} RegistryForgets(s: State, rec: Rec)
    requires Structured(s) && s.writer.Some? && !s.writer.value.failed && Fresh(s, rec) && rec.projection
    ensures rec.op !in s.writer.value.registry
  {
    assert Healthy(s.disk, s.writer.value);
  }

  /** A new record that is written stands at the end of the log; after a rotation it is the first of its segment. A
      durable append is acknowledged
      when its synchronization succeeds; if that fails, nothing is acknowledged and the writer stops. A grouped
      append is acknowledged after the wake-up it owes and the committer's steps. */
  lemma {:induction false} AppendAcknowledged(steps: seq<Step>, append: Step)
    requires Run(steps).Some? && append.Append? && Accepting(Run(steps).value, append.thread)
    requires Fresh(Run(steps).value, append.rec) && append.outcome.Written?
    requires append.rotation.NotNeeded? || append.rotation.Rotated?
    ensures var s := Run(steps).value; var next := Run(steps + [append]); var place := |s.disk.log| + 1;
      && next.Some? && next.value.writer.Some? && next.value.disk.log == s.disk.log + [append.rec]
      && next.value.disk.segmentStart == (if append.rotation.Rotated? then |s.disk.log| else s.disk.segmentStart)
      && next.value.disk.linked == (append.rotation.Rotated? || s.disk.linked)
      && (append.isDurable && append.syncOk ==>
            next.value.acked == s.acked + {(place, append.rec)} && next.value.disk.synced == place
              && AllDurable(next.value))
      && (append.isDurable && !append.syncOk ==> next.value.acked == s.acked && next.value.writer.value.failed)
      && (!append.isDurable ==> next.value.acked == s.acked && Grouped(next.value, append.thread, place, append.rec))
  {
    hide Structured, Run, RegistryExact, AtMostOnce, CommitterPath, RunFrom;
    var s := Run(steps).value;
    RunStructured(steps);
    RunThen(steps, append);
    if append.rec.projection {
      RegistryForgets(s, append.rec);
    }
    CountersAgree(s);
    if !append.isDurable {
      GroupReleased(steps + [append], append.thread, |s.disk.log| + 1, append.rec);
    }
  }

  /** After the wake-up, the committer's steps and the return of the appender, the record is acknowledged. */
  ghost predicate Grouped(s: State, thread: nat, place: nat, rec: Rec) {
    && Apply(s, Wake).Some? && Apply(s, Wake).value.writer.Some?
    && var woken := Apply(s, Wake).value;
    && var end := RunFrom(woken, CommitterPath(woken.writer.value.committer));
    && end.Some? && Apply(end.value, Return(thread)).Some?
    && (place, rec) in Apply(end.value, Return(thread)).value.acked
  }

  lemma {:induction false} GroupReleased(steps: seq<Step>, thread: nat, place: nat, rec: Rec)
    requires Run(steps).Some? && Run(steps).value.writer.Some?
    requires var w := Run(steps).value.writer.value;
      w.holder == Some(Held(thread, place, rec)) && !w.failed && w.pending > 0
    ensures Grouped(Run(steps).value, thread, place, rec)
  {
    hide Run, CommitterPath, RunFrom;
    RunThen(steps, Wake);
    WaiterReleased(steps + [Wake], thread);
  }

  /** A closed or failed writer refuses every append and changes nothing. */
  lemma {:induction false} AppendRefused(s: State, append: Step)
    requires append.Append? && s.writer.Some? && LockFree(s.writer.value) && append.thread !in s.writer.value.waiting
    requires s.writer.value.closed || s.writer.value.failed
    ensures Apply(s, append) == Some(s)
  {
  }
}
