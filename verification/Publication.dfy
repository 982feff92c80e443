/** Publishing a graph generation (`publish_prepared` in `graph_generation.rs` over `atomic_write_with`
    in `fs_util.rs`) as a state machine. Candidates are prepared outside the collection lock; the
    check and the replacement of the manifest file run under it. Any step may fail, the process may
    die between two steps, and a power loss may undo directory changes that were not synchronized. */
module Publication {
  import opened Wrappers

  const GENERATION_LIMIT: nat := 0x1_0000_0000_0000_0000

  datatype Graph = Graph(version: nat, epoch: nat, overlay: nat, watermark: nat)

  /** `rest` stands for the segment list and the graph's file references. */
  datatype Manifest = Manifest(generation: nat, graph: Option<Graph>, rest: nat)

  /** A file's content is a whole manifest or torn, and survives a power loss once synchronized. */
  datatype File = File(content: Option<Manifest>, synced: bool)

  datatype Phase =
    | Waiting
    | Locked
    | Checked
    | Ready
    | Temp(file: File)
    | Renamed
    | Failed
    | Returned(ok: bool)

  datatype Publisher = Publisher(expected: Option<Manifest>, candidate: Manifest, phase: Phase)

  /** `entries` are the manifest's directory entries since the last synchronization of the directory:
      the first survives a power loss, the last is the one readers see. `log` is the history of the
      manifests that led to it, `durable` of them before the first entry. */
  datatype World = World(
    entries: seq<Option<File>>, publishers: map<nat, Publisher>, lock: Option<nat>,
    log: seq<Manifest>, durable: nat)

  /** The validations of a manifest and of a fragment transition, whatever they are. */
  datatype Rules = Rules(valid: Manifest -> bool, transition: (Option<Manifest>, Manifest) -> bool)

  datatype Step =
    | Prepare(id: nat, expected: Option<Manifest>, candidate: Manifest)
    | Acquire(id: nat)
    | Validate(id: nat, readable: bool)
    | CheckWrite(id: nat)
    | CreateTemp(id: nat)
    | WriteTemp(id: nat)
    | SyncTemp(id: nat)
    | Rename(id: nat)
    | SyncDirectory(id: nat)
    | Fault(id: nat)
    | Recheck(id: nat, readable: bool)
    | ProcessCrash
    | PowerLoss(keep: nat)

  // ----- The checks -----

  function Visible(entries: seq<Option<File>>): Option<File>
    requires entries != []
  {
    entries[|entries| - 1]
  }

  /** A missing file reads as no manifest, a torn one as an error. */
  function Read(entry: Option<File>): Result<Option<Manifest>> {
    match entry
    case None => Ok(None)
    case Some(file) => if file.content.Some? then Ok(Some(file.content.value)) else Err
  }

  function GenerationOf(m: Option<Manifest>): nat {
    if m.Some? then m.value.generation else 0
  }

  function GraphOf(m: Option<Manifest>): Option<Graph> {
    if m.Some? then m.value.graph else None
  }

  /** The graph descriptor may not go back. */
  predicate GraphForward(previous: Graph, next: Graph) {
    && previous.version <= next.version
    && previous.epoch <= next.epoch
    && previous.overlay < next.overlay
    && (previous.epoch == next.epoch ==> previous.watermark <= next.watermark)
  }

  predicate Follows(rules: Rules, expected: Option<Manifest>, candidate: Manifest) {
    && candidate.generation == GenerationOf(expected) + 1 < GENERATION_LIMIT
    && (GraphOf(expected).Some? && candidate.graph.Some? ==>
      GraphForward(GraphOf(expected).value, candidate.graph.value))
    && rules.transition(expected, candidate)
  }

  /** `validate_publication`: the base is the manifest on disk, and the candidate follows it. */
  predicate Acceptable(rules: Rules, current: Option<Manifest>, expected: Option<Manifest>, candidate: Manifest) {
    current == expected && Follows(rules, expected, candidate)
  }

  /** `write_segments_manifest` refuses an invalid manifest and one that would erase a graph. */
  predicate Writable(rules: Rules, current: Option<Manifest>, candidate: Manifest) {
    rules.valid(candidate) && (candidate.graph.None? ==> GraphOf(current).None?)
  }

  // ----- Steps -----

  function At(w: World, id: nat, phase: Phase): World
    requires id in w.publishers
  {
    w.(publishers := w.publishers[id := w.publishers[id].(phase := phase)])
  }

  function Return(w: World, id: nat, ok: bool): World
    requires id in w.publishers
  {
    At(w, id, Returned(ok)).(lock := None)
  }

  predicate CanFail(phase: Phase) {
    phase.Checked? || phase.Ready? || phase.Temp? || phase.Renamed?
  }

  /** One step of a publisher that exists. */
  function PublisherStep(w: World, s: Step, id: nat, rules: Rules): Option<World>
    requires id in w.publishers && w.entries != []
  {
    var p := w.publishers[id];
    var current := Read(Visible(w.entries));
    match s
    case Prepare(_, _, _) => None
    case Acquire(_) => if p.phase.Waiting? && w.lock.None? then Some(At(w, id, Locked).(lock := Some(id))) else None
    case Validate(_, readable) =>
      if !p.phase.Locked? then None
      else if readable && current.Ok? && Acceptable(rules, current.value, p.expected, p.candidate)
        then Some(At(w, id, Checked))
      else Some(Return(w, id, false))
    case CheckWrite(_) =>
      if p.phase.Checked? && current.Ok? && Writable(rules, current.value, p.candidate) then Some(At(w, id, Ready))
        else None
    case CreateTemp(_) => if p.phase.Ready? then Some(At(w, id, Temp(File(None, false)))) else None
    case WriteTemp(_) =>
      if p.phase.Temp? && p.phase.file == File(None, false) then Some(At(w, id, Temp(File(Some(p.candidate), false))))
        else None
    case SyncTemp(_) =>
      if p.phase.Temp? && p.phase.file == File(Some(p.candidate), false)
        then Some(At(w, id, Temp(File(Some(p.candidate), true)))) else None
    case Rename(_) =>
      if p.phase.Temp? && p.phase.file.synced
      then Some(At(w, id, Renamed).(entries := w.entries + [Some(p.phase.file)], log := w.log + [p.candidate]))
      else None
    case SyncDirectory(_) =>
      if p.phase.Renamed?
      then Some(Return(w, id, true).(entries := [Visible(w.entries)], durable := |w.log|))
      else None
    case Fault(_) => if CanFail(p.phase) then Some(At(w, id, Failed)) else None
    case Recheck(_, readable) =>
      if p.phase.Failed? then Some(Return(w, id, readable && current == Ok(Some(p.candidate)))) else None
    case ProcessCrash => None
    case PowerLoss(_) => None
  }

  /** A file that was not synchronized comes back torn. */
  function Survivor(entry: Option<File>): Option<File> {
    if entry.Some? && !entry.value.synced then Some(File(None, true)) else entry
  }

  function Next(w: World, s: Step, rules: Rules): Option<World>
    requires w.entries != []
  {
    match s
    case ProcessCrash => Some(w.(publishers := map[], lock := None))
    case PowerLoss(keep) =>
      if keep < |w.entries| && w.durable + keep <= |w.log|
      then Some(World([Survivor(w.entries[keep])], map[], None, w.log[..w.durable + keep], w.durable + keep))
      else None
    case Prepare(id, expected, candidate) =>
      if id in w.publishers && !w.publishers[id].phase.Returned? then None
      else Some(w.(publishers := w.publishers[id := Publisher(expected, candidate, Waiting)]))
    case _ => if s.id in w.publishers then PublisherStep(w, s, s.id, rules) else None
  }

  /** A run takes any enabled steps; a step that is not enabled does nothing. */
  function After(w: World, s: Step, rules: Rules): (w': World)
    requires w.entries != []
    ensures w'.entries != []
  {
    var next := Next(w, s, rules);
    if next.Some? then next.value else w
  }

  // ----- The invariant -----

  function EntryOf(log: seq<Manifest>, n: nat): Option<File>
    requires n <= |log|
  {
    if n == 0 then None else Some(File(Some(log[n - 1]), true))
  }

  function Latest(log: seq<Manifest>): Option<Manifest> {
    if log == [] then None else Some(log[|log| - 1])
  }

  /** A manifest was installed over the one it names as its base, and follows it. */
  predicate Installed(rules: Rules, previous: Option<Manifest>, next: Manifest) {
    Follows(rules, previous, next) && Writable(rules, previous, next)
  }

  predicate Chain(rules: Rules, log: seq<Manifest>) {
    forall i :: 0 < i < |log| ==> Installed(rules, Some(log[i - 1]), log[i])
  }

  /** The directory holds complete manifests only: the last of the history, and behind it those a
      power loss may bring back. */
  predicate DiskSound(w: World) {
    && w.durable <= |w.log| && |w.entries| == |w.log| - w.durable + 1
    && forall i :: 0 <= i < |w.entries| ==> w.entries[i] == EntryOf(w.log, w.durable + i)
  }

  predicate Holding(phase: Phase) {
    !phase.Waiting? && !phase.Returned?
  }

  /** Only the lock holder is past waiting. */
  predicate LockSound(w: World) {
    forall id :: id in w.publishers && Holding(w.publishers[id].phase) ==> w.lock == Some(id)
  }

  /** Its candidate is the manifest on disk, and its base the one before. */
  predicate Replaced(w: World, p: Publisher, rules: Rules) {
    && |w.entries| >= 2 && w.log != []
    && Latest(w.log) == Some(p.candidate)
    && Latest(w.log[..|w.log| - 1]) == p.expected
    && Installed(rules, p.expected, p.candidate)
  }

  predicate Pending(w: World, p: Publisher, rules: Rules) {
    Acceptable(rules, Latest(w.log), p.expected, p.candidate)
  }

  predicate PublisherSound(w: World, p: Publisher, rules: Rules) {
    match p.phase
    case Waiting => true
    case Locked => true
    case Checked => Pending(w, p, rules)
    case Ready => Pending(w, p, rules) && Writable(rules, p.expected, p.candidate)
    case Temp(file) =>
      && Pending(w, p, rules) && Writable(rules, p.expected, p.candidate)
      && (file.synced ==> file.content == Some(p.candidate))
    case Renamed => Replaced(w, p, rules)
    case Failed => Pending(w, p, rules) || Replaced(w, p, rules)
    case Returned(_) => true
  }

  ghost predicate Sound(w: World, rules: Rules) {
    && DiskSound(w) && Chain(rules, w.log) && LockSound(w)
    && forall id :: id in w.publishers ==> PublisherSound(w, w.publishers[id], rules)
  }

  lemma {:induction false} DiskReads(w: World)
    requires DiskSound(w)
    ensures w.entries != [] && Read(Visible(w.entries)) == Ok(Latest(w.log))
  {
  }

  /** No one but the holder of the lock depends on the disk. */
  lemma {:induction false} OthersIdle(w: World, id: nat, other: nat)
    requires LockSound(w) && id in w.publishers && Holding(w.publishers[id].phase)
    requires other in w.publishers && other != id
    ensures !Holding(w.publishers[other].phase)
  {
  }

  /** A step that leaves the disk alone and moves one publisher to a sound phase keeps the invariant. */
  lemma {:induction false} PhaseKeeps(w: World, w': World, id: nat, phase: Phase, rules: Rules)
    requires Sound(w, rules) && id in w.publishers
    requires w'.entries == w.entries && w'.log == w.log && w'.durable == w.durable
    requires w'.publishers == w.publishers[id := w.publishers[id].(phase := phase)]
    requires Holding(phase) ==> w'.lock == Some(id)
    requires w'.lock == w.lock || Holding(w.publishers[id].phase) || w.lock.None?
    requires PublisherSound(w, w.publishers[id].(phase := phase), rules)
    ensures Sound(w', rules)
  {
    hide Follows, Writable, Chain;
    forall other | other in w'.publishers
      ensures PublisherSound(w', w'.publishers[other], rules)
      ensures Holding(w'.publishers[other].phase) ==> w'.lock == Some(other)
    {
      if other != id {
        assert w'.publishers[other] == w.publishers[other];
        assert PublisherSound(w, w.publishers[other], rules);
      }
    }
  }

  lemma {:induction false} RenameKeeps(w: World, id: nat, rules: Rules)
    requires Sound(w, rules) && Next(w, Rename(id), rules).Some?
    ensures Sound(Next(w, Rename(id), rules).value, rules)
  {
    hide Follows, Writable;
    var w' := Next(w, Rename(id), rules).value;
    var p := w.publishers[id];
    assert PublisherSound(w, p, rules);
    assert w'.log[..|w'.log| - 1] == w.log;
    forall i | 0 < i < |w'.log| ensures Installed(rules, Some(w'.log[i - 1]), w'.log[i]) {
      if i < |w.log| {
        assert Installed(rules, Some(w.log[i - 1]), w.log[i]);
      }
    }
    forall other | other in w'.publishers ensures PublisherSound(w', w'.publishers[other], rules) {
      if other != id {
        OthersIdle(w, id, other);
      }
    }
  }

  lemma {:induction false} SyncKeeps(w: World, id: nat, rules: Rules)
    requires Sound(w, rules) && Next(w, SyncDirectory(id), rules).Some?
    ensures Sound(Next(w, SyncDirectory(id), rules).value, rules)
  {
    hide Follows, Writable;
    var w' := Next(w, SyncDirectory(id), rules).value;
    forall other | other in w'.publishers ensures PublisherSound(w', w'.publishers[other], rules) {
      if other != id {
        OthersIdle(w, id, other);
      }
    }
  }

  lemma {:induction false} PowerLossKeeps(w: World, keep: nat, rules: Rules)
    requires Sound(w, rules) && keep < |w.entries|
    ensures Next(w, PowerLoss(keep), rules).Some?
    ensures Sound(Next(w, PowerLoss(keep), rules).value, rules)
    ensures Visible(Next(w, PowerLoss(keep), rules).value.entries) == w.entries[keep]
  {
    hide Follows, Writable;
    var w' := Next(w, PowerLoss(keep), rules).value;
    assert w.entries[keep] == EntryOf(w.log, w.durable + keep);
    forall i | 0 < i < |w'.log| ensures Installed(rules, Some(w'.log[i - 1]), w'.log[i]) {
      assert Installed(rules, Some(w.log[i - 1]), w.log[i]);
    }
  }

  /** Every step of every publisher, every failure and every crash keeps the invariant. */
  lemma {:induction false} StepKeeps(w: World, s: Step, rules: Rules)
    requires Sound(w, rules)
    ensures Sound(After(w, s, rules), rules)
  {
    hide Follows, Writable, Chain;
    if Next(w, s, rules).Some? {
      var w' := Next(w, s, rules).value;
      match s
      case ProcessCrash =>
      case PowerLoss(keep) => PowerLossKeeps(w, keep, rules);
      case Prepare(id, expected, candidate) =>
        forall other | other in w'.publishers
          ensures PublisherSound(w', w'.publishers[other], rules)
          ensures Holding(w'.publishers[other].phase) ==> w'.lock == Some(other)
        {
          if other != id {
            assert PublisherSound(w, w.publishers[other], rules);
          }
        }
      case Rename(id) => RenameKeeps(w, id, rules);
      case SyncDirectory(id) => SyncKeeps(w, id, rules);
      case _ => PublisherKeeps(w, s, rules);
    }
  }

  lemma {:induction false} PublisherKeeps(w: World, s: Step, rules: Rules)
    requires Sound(w, rules)
    requires s.Acquire? || s.Validate? || s.CheckWrite? || s.CreateTemp? || s.WriteTemp? || s.SyncTemp? || s.Fault?
      || s.Recheck?
    requires Next(w, s, rules).Some?
    ensures Sound(Next(w, s, rules).value, rules)
  {
    hide Follows, Writable, Chain;
    var w' := Next(w, s, rules).value;
    DiskReads(w);
    assert PublisherSound(w, w.publishers[s.id], rules);
    PhaseKeeps(w, w', s.id, w'.publishers[s.id].phase, rules);
  }

  // ----- Runs -----

  predicate Init(w: World) {
    w.publishers == map[] && w.lock.None? && |w.log| <= 1 && w.durable == |w.log|
      && w.entries == [EntryOf(w.log, |w.log|)]
  }

  function Run(w: World, steps: seq<Step>, rules: Rules): World
    requires w.entries != []
    ensures Run(w, steps, rules).entries != []
    decreases |steps|
  {
    if steps == [] then w else Run(After(w, steps[0], rules), steps[1..], rules)
  }

  lemma {:induction false} RunKeeps(w: World, steps: seq<Step>, rules: Rules)
    requires Sound(w, rules)
    ensures Sound(Run(w, steps, rules), rules)
    decreases |steps|
  {
    if steps != [] {
      StepKeeps(w, steps[0], rules);
      RunKeeps(After(w, steps[0], rules), steps[1..], rules);
    }
  }

  /** In every state of every run the manifest on disk, and each one a power loss could bring back, is
      absent or complete and synchronized, and each was installed over the one before it. */
  lemma {:induction false} ManifestAlwaysWhole(w: World, steps: seq<Step>, rules: Rules)
    requires Init(w)
    ensures var end := Run(w, steps, rules);
      && (forall i :: 0 <= i < |end.entries| ==>
             end.entries[i].None? || (end.entries[i].value.synced && end.entries[i].value.content.Some?))
      && Read(Visible(end.entries)) == Ok(Latest(end.log))
      && Chain(rules, end.log)
  {
    RunKeeps(w, steps, rules);
    DiskReads(Run(w, steps, rules));
  }

  /** Short of a power loss, what readers see changes only when a publisher that holds the lock renames
      its file, and then the manifest seen before is the very base it named and the new one follows it. */
  lemma {:induction false} InstallAdvances(w: World, s: Step, rules: Rules)
    requires Sound(w, rules) && !s.PowerLoss?
    requires Read(Visible(After(w, s, rules).entries)) != Read(Visible(w.entries))
    ensures s.Rename? && s.id in w.publishers && w.lock == Some(s.id)
    ensures var p := w.publishers[s.id];
      && Read(Visible(w.entries)) == Ok(p.expected)
      && Read(Visible(After(w, s, rules).entries)) == Ok(Some(p.candidate))
      && Installed(rules, p.expected, p.candidate)
  {
    DiskReads(w);
    StepKeeps(w, s, rules);
    DiskReads(After(w, s, rules));
    if s.Rename? && s.id in w.publishers {
      assert PublisherSound(w, w.publishers[s.id], rules);
    }
  }

  /** Along the history generations count up by one, a graph is never dropped again, its overlay version
      rises, its epoch and format version never fall, nor its watermark within an epoch. */
  lemma {:induction false} HistoryAdvances(rules: Rules, log: seq<Manifest>, i: nat, j: nat)
    requires Chain(rules, log) && i < j < |log|
    ensures log[j].generation == log[i].generation + (j - i)
    ensures log[i].graph.Some? ==>
      && log[j].graph.Some?
      && log[i].graph.value.overlay < log[j].graph.value.overlay
      && log[i].graph.value.epoch <= log[j].graph.value.epoch
      && log[i].graph.value.version <= log[j].graph.value.version
      && (log[i].graph.value.epoch == log[j].graph.value.epoch ==>
            log[i].graph.value.watermark <= log[j].graph.value.watermark)
    decreases j
  {
    assert Installed(rules, Some(log[j - 1]), log[j]);
    if i < j - 1 {
      HistoryAdvances(rules, log, i, j - 1);
    }
  }

  /** What may be installed over what, field by field: the next generation, valid and allowed by the rules, with a
      graph if there was one, and a graph that goes forward if there are two. */
  lemma {:induction false} InstalledExact(rules: Rules, previous: Option<Manifest>, next: Manifest)
    ensures Installed(rules, previous, next) <==>
      && rules.valid(next) && rules.transition(previous, next) && next.generation < GENERATION_LIMIT
      && next.generation == (if previous.Some? then previous.value.generation else 0) + 1
      && (previous.Some? && previous.value.graph.Some? ==>
            && next.graph.Some?
            && previous.value.graph.value.overlay < next.graph.value.overlay
            && previous.value.graph.value.epoch <= next.graph.value.epoch
            && previous.value.graph.value.version <= next.graph.value.version
            && (previous.value.graph.value.epoch == next.graph.value.epoch ==>
                  previous.value.graph.value.watermark <= next.graph.value.watermark))
  {
  }

  predicate Succeeds(w: World, s: Step, id: nat, rules: Rules)
    requires w.entries != []
  {
    && id in w.publishers && !w.publishers[id].phase.Returned?
    && id in After(w, s, rules).publishers && After(w, s, rules).publishers[id].phase == Returned(true)
  }

  /** A publisher returns Ok only with its candidate on disk, installed over its base. */
  lemma {:induction false} OkIsInstalled(w: World, s: Step, id: nat, rules: Rules)
    requires Sound(w, rules) && Succeeds(w, s, id, rules)
    ensures var p := w.publishers[id];
      && Read(Visible(After(w, s, rules).entries)) == Ok(Some(p.candidate))
      && Latest(w.log[..|w.log| - 1]) == p.expected
      && Installed(rules, p.expected, p.candidate)
  {
    DiskReads(w);
    OkSteps(w, s, id, rules);
    assert PublisherSound(w, w.publishers[id], rules);
    if Pending(w, w.publishers[id], rules) {
      ReplacedLater(w, w.publishers[id], rules);
    }
  }

  lemma {:induction false} OkSteps(w: World, s: Step, id: nat, rules: Rules)
    requires Sound(w, rules) && Succeeds(w, s, id, rules)
    ensures s == SyncDirectory(id) || s == Recheck(id, true)
    ensures s == SyncDirectory(id) ==> w.publishers[id].phase.Renamed?
    ensures s == Recheck(id, true) ==>
      && w.publishers[id].phase.Failed?
      && Read(Visible(w.entries)) == Ok(Some(w.publishers[id].candidate))
    ensures s == Recheck(id, true) ==> After(w, s, rules).entries == w.entries
  {
    hide Follows, Writable, Acceptable, Chain;
    var p := w.publishers[id];
    assert Next(w, s, rules).Some?;
    if s.ProcessCrash? || s.PowerLoss? || s.Prepare? {
    } else {
      assert s.id == id;
    }
  }

  /** A base never equals the candidate, since generations differ: a rejected file was not installed. */
  lemma {:induction false} ReplacedLater(w: World, p: Publisher, rules: Rules)
    requires Pending(w, p, rules)
    ensures Latest(w.log) != Some(p.candidate)
  {
  }

  /** A power loss can leave the candidate in place whatever it does, if and only if the directory was
      synchronized; an Ok that came from reading the file back can be lost. */
  lemma {:induction false} OkSurvivesExact(w: World, s: Step, id: nat, rules: Rules)
    requires Sound(w, rules) && Succeeds(w, s, id, rules)
    ensures var w' := After(w, s, rules);
      (forall keep :: 0 <= keep < |w'.entries| ==>
        Read(Visible(After(w', PowerLoss(keep), rules).entries)) == Ok(Some(w.publishers[id].candidate)))
      <==> s == SyncDirectory(id)
  {
    hide Follows, Writable, Chain;
    var w' := After(w, s, rules);
    var p := w.publishers[id];
    OkIsInstalled(w, s, id, rules);
    OkSteps(w, s, id, rules);
    StepKeeps(w, s, rules);
    forall keep | 0 <= keep < |w'.entries| ensures Visible(After(w', PowerLoss(keep), rules).entries)
      == w'.entries[keep] {
      PowerLossKeeps(w', keep, rules);
    }
    if s != SyncDirectory(id) {
      assert PublisherSound(w, p, rules);
      DiskReads(w);
      if Pending(w, p, rules) {
        ReplacedLater(w, p, rules);
      }
      EarlierEntry(w, p, rules);
      assert Read(Visible(After(w', PowerLoss(|w'.entries| - 2), rules).entries)) != Ok(Some(p.candidate));
    }
  }

  lemma {:induction false} EarlierEntry(w: World, p: Publisher, rules: Rules)
    requires DiskSound(w) && Replaced(w, p, rules)
    ensures Read(w.entries[|w.entries| - 2]) == Ok(p.expected) && p.expected != Some(p.candidate)
  {
    assert w.entries[|w.entries| - 2] == EntryOf(w.log, |w.log| - 1);
  }

  /** An error means the candidate is not on disk, unless reading the file back failed too. */
  lemma {:induction false} ErrExact(w: World, id: nat, readable: bool, rules: Rules)
    requires Sound(w, rules) && id in w.publishers && w.publishers[id].phase.Failed?
    ensures var w' := After(w, Recheck(id, readable), rules);
      && w'.entries == w.entries
      && (w'.publishers[id].phase == Returned(false) <==>
            !readable || Read(Visible(w.entries)) != Ok(Some(w.publishers[id].candidate)))
      && (Read(Visible(w.entries)) != Ok(Some(w.publishers[id].candidate)) <==>
        Read(Visible(w.entries)) == Ok(w.publishers[id].expected))
  {
    hide Chain;
    var p := w.publishers[id];
    DiskReads(w);
    assert PublisherSound(w, p, rules);
    if Replaced(w, p, rules) {
      EarlierEntry(w, p, rules);
    } else {
      ReplacedLater(w, p, rules);
    }
  }

  // ----- The two lost outcomes, as runs -----

  function Forward(id: nat, candidate: Manifest): seq<Step> {
    [Prepare(id, None, candidate), Acquire(id), Validate(id, true), CheckWrite(id), CreateTemp(id), WriteTemp(id),
      SyncTemp(id), Rename(id)]
  }

  lemma {:induction false} ForwardRuns(candidate: Manifest, rules: Rules)
    requires Follows(rules, None, candidate) && rules.valid(candidate)
    ensures var start := World([None], map[], None, [], 0);
      Run(start, Forward(7, candidate), rules) ==
        World([None, Some(File(Some(candidate), true))], map[7 := Publisher(None, candidate, Renamed)], Some(7),
          [candidate], 0)
  {
    var start := World([None], map[], None, [], 0);
    var f := Forward(7, candidate);
    var w1 := start.(publishers := map[7 := Publisher(None, candidate, Waiting)]);
    var w2 := World([None], map[7 := Publisher(None, candidate, Locked)], Some(7), [], 0);
    var w3 := World([None], map[7 := Publisher(None, candidate, Checked)], Some(7), [], 0);
    var w4 := World([None], map[7 := Publisher(None, candidate, Ready)], Some(7), [], 0);
    assert After(start, f[0], rules) == w1;
    assert After(w1, f[1], rules) == w2;
    assert After(w2, f[2], rules) == w3;
    assert After(w3, f[3], rules) == w4;
    RunFour(start, f, rules);
    TempRuns(w4, candidate, rules);
    assert f[4..] == [CreateTemp(7), WriteTemp(7), SyncTemp(7), Rename(7)];
  }

  lemma {:induction false} RunOne(w: World, steps: seq<Step>, rules: Rules)
    requires w.entries != [] && steps != []
    ensures Run(w, steps, rules) == Run(After(w, steps[0], rules), steps[1..], rules)
  {
    hide After;
  }

  lemma {:induction false} RunFour(w: World, steps: seq<Step>, rules: Rules)
    requires w.entries != [] && |steps| >= 4
    ensures Run(w, steps, rules) ==
      Run(After(After(After(After(w, steps[0], rules), steps[1], rules), steps[2], rules), steps[3], rules), steps[4..],
        rules)
  {
    hide After, Run;
    var a := After(w, steps[0], rules);
    var b := After(a, steps[1], rules);
    var c := After(b, steps[2], rules);
    RunOne(w, steps, rules);
    RunOne(a, steps[1..], rules);
    assert steps[1..][1..] == steps[2..];
    RunOne(b, steps[2..], rules);
    assert steps[2..][1..] == steps[3..];
    RunOne(c, steps[3..], rules);
    assert steps[3..][1..] == steps[4..];
  }

  lemma {:induction false} TempRuns(w: World, candidate: Manifest, rules: Rules)
    requires w == World([None], map[7 := Publisher(None, candidate, Ready)], Some(7), [], 0)
    ensures Run(w, [CreateTemp(7), WriteTemp(7), SyncTemp(7), Rename(7)], rules) ==
      World([None, Some(File(Some(candidate), true))], map[7 := Publisher(None, candidate, Renamed)], Some(7),
        [candidate], 0)
  {
    var f := [CreateTemp(7), WriteTemp(7), SyncTemp(7), Rename(7)];
    var w1 := World([None], map[7 := Publisher(None, candidate, Temp(File(None, false)))], Some(7), [], 0);
    var w2 := World([None], map[7 := Publisher(None, candidate, Temp(File(Some(candidate), false)))], Some(7), [], 0);
    var w3 := World([None], map[7 := Publisher(None, candidate, Temp(File(Some(candidate), true)))], Some(7), [], 0);
    assert After(w, f[0], rules) == w1;
    assert After(w1, f[1], rules) == w2;
    assert After(w2, f[2], rules) == w3;
    RunFour(w, f, rules);
  }

  /** The steps of a publisher that nothing disturbs. */
  function Undisturbed(id: nat): seq<Step> {
    [Acquire(id), Validate(id, true), CheckWrite(id), CreateTemp(id), WriteTemp(id), SyncTemp(id), Rename(id),
     SyncDirectory(id)]
  }

  lemma {:induction false} StuckStays(w: World, id: nat, steps: seq<Step>, rules: Rules)
    requires w.entries != [] && id in w.publishers
    requires w.publishers[id].phase == Returned(false)
      || (w.publishers[id].phase.Checked? && Read(Visible(w.entries)).Ok?
          && !Writable(rules, Read(Visible(w.entries)).value, w.publishers[id].candidate))
    requires forall i :: 0 <= i < |steps| ==>
      steps[i] in [CheckWrite(id), CreateTemp(id), WriteTemp(id), SyncTemp(id), Rename(id), SyncDirectory(id)]
    ensures Run(w, steps, rules) == w
    decreases |steps|
  {
    hide Writable, Read, Visible;
    if steps != [] {
      assert steps[0] in [CheckWrite(id), CreateTemp(id), WriteTemp(id), SyncTemp(id), Rename(id), SyncDirectory(id)];
      assert After(w, steps[0], rules) == w;
      forall i | 0 <= i < |steps[1..]|
        ensures steps[1..][i] in
          [CheckWrite(id), CreateTemp(id), WriteTemp(id), SyncTemp(id), Rename(id), SyncDirectory(id)]
      {
        assert steps[1..][i] == steps[i + 1];
      }
      StuckStays(w, id, steps[1..], rules);
    }
  }

  lemma {:induction false} ReadyRuns(w: World, id: nat, rules: Rules)
    requires w.entries != [] && id in w.publishers && w.publishers[id].phase.Ready?
    ensures var p := w.publishers[id];
      Run(w, [CreateTemp(id), WriteTemp(id), SyncTemp(id), Rename(id), SyncDirectory(id)], rules) ==
        World([Some(File(Some(p.candidate), true))], w.publishers[id := p.(phase := Returned(true))], None,
          w.log + [p.candidate], |w.log| + 1)
  {
    hide Run;
    var p := w.publishers[id];
    var f := [CreateTemp(id), WriteTemp(id), SyncTemp(id), Rename(id), SyncDirectory(id)];
    var file := File(Some(p.candidate), true);
    var w1 := At(w, id, Temp(File(None, false)));
    var w2 := At(w, id, Temp(File(Some(p.candidate), false)));
    var w3 := At(w, id, Temp(file));
    var w4 := At(w, id, Renamed).(entries := w.entries + [Some(file)], log := w.log + [p.candidate]);
    assert After(w, f[0], rules) == w1;
    assert w1.publishers[id := w1.publishers[id].(phase := Temp(File(Some(p.candidate), false)))] == w2.publishers;
    assert After(w1, f[1], rules) == w2;
    assert w2.publishers[id := w2.publishers[id].(phase := Temp(file))] == w3.publishers;
    assert After(w2, f[2], rules) == w3;
    assert w3.publishers[id := w3.publishers[id].(phase := Renamed)] == w4.publishers;
    assert After(w3, f[3], rules) == w4;
    RunFour(w, f, rules);
    assert f[4..] == [SyncDirectory(id)] && f[4..][1..] == [];
    RunOne(w4, f[4..], rules);
    RunNone(After(w4, f[4], rules), rules);
    assert w4.publishers[id := w4.publishers[id].(phase := Returned(true))]
      == w.publishers[id := p.(phase := Returned(true))];
  }

  lemma {:induction false} RunNone(w: World, rules: Rules)
    requires w.entries != []
    ensures Run(w, [], rules) == w
  {
  }

  /** A publisher that nothing disturbs returns Ok if and only if its base is the manifest on disk and its candidate
      may be installed over it; the candidate is then the durable manifest, and the history has grown by it. */
  lemma {:induction false} UndisturbedExact(w: World, id: nat, rules: Rules)
    requires Sound(w, rules) && id in w.publishers && w.publishers[id].phase.Waiting? && w.lock.None?
    ensures var p, done := w.publishers[id], Run(w, Undisturbed(id), rules);
      && id in done.publishers
      && (done.publishers[id].phase == Returned(true) <==>
            Latest(w.log) == p.expected && Installed(rules, p.expected, p.candidate))
      && (done.publishers[id].phase == Returned(true) ==>
            && done.log == w.log + [p.candidate] && done.durable == |done.log| && done.lock.None?
            && done.entries == [Some(File(Some(p.candidate), true))])
  {
    hide Follows, Writable, Chain, LockSound, DiskSound, Run;
    DiskReads(w);
    var f := Undisturbed(id);
    var p := w.publishers[id];
    var w1 := At(w, id, Locked).(lock := Some(id));
    assert After(w, f[0], rules) == w1;
    RunOne(w, f, rules);
    RunOne(w1, f[1..], rules);
    assert f[1..][1..] == f[2..];
    if !Acceptable(rules, Latest(w.log), p.expected, p.candidate) {
      var w2 := Return(w1, id, false);
      assert After(w1, f[1], rules) == w2;
      StuckStays(w2, id, f[2..], rules);
    } else {
      var w2 := At(w1, id, Checked);
      assert After(w1, f[1], rules) == w2;
      if !Writable(rules, Latest(w.log), p.candidate) {
        StuckStays(w2, id, f[2..], rules);
      } else {
        var w3 := At(w2, id, Ready);
        assert After(w2, f[2], rules) == w3;
        RunOne(w2, f[2..], rules);
        assert f[2..][1..] == [CreateTemp(id), WriteTemp(id), SyncTemp(id), Rename(id), SyncDirectory(id)];
        ReadyRuns(w3, id, rules);
      }
    }
  }

  /** The directory sync fails, the file reads back, the publisher returns Ok, and a power loss undoes it. */
  lemma {:induction false} OkCanBeLost(candidate: Manifest, rules: Rules)
    requires Follows(rules, None, candidate) && rules.valid(candidate)
    ensures var renamed := Run(World([None], map[], None, [], 0), Forward(7, candidate), rules);
      var done := Run(renamed, [Fault(7), Recheck(7, true)], rules);
      && 7 in done.publishers && done.publishers[7].phase == Returned(true)
      && Read(Visible(Run(done, [PowerLoss(0)], rules).entries)) == Ok(None)
  {
    ForwardRuns(candidate, rules);
    var renamed := Run(World([None], map[], None, [], 0), Forward(7, candidate), rules);
    var failed := After(renamed, Fault(7), rules);
    var done := After(failed, Recheck(7, true), rules);
    RunTwo(renamed, Fault(7), Recheck(7, true), rules);
    assert Run(done, [PowerLoss(0)], rules) == Run(After(done, PowerLoss(0), rules), [], rules);
  }

  /** The directory sync fails and so does reading the file back: an error is returned for an installed manifest. */
  lemma {:induction false} ErrCanBeInstalled(candidate: Manifest, rules: Rules)
    requires Follows(rules, None, candidate) && rules.valid(candidate)
    ensures var renamed := Run(World([None], map[], None, [], 0), Forward(7, candidate), rules);
      var done := Run(renamed, [Fault(7), Recheck(7, false)], rules);
      && 7 in done.publishers && done.publishers[7].phase == Returned(false)
      && Read(Visible(done.entries)) == Ok(Some(candidate))
  {
    ForwardRuns(candidate, rules);
    var renamed := Run(World([None], map[], None, [], 0), Forward(7, candidate), rules);
    var failed := After(renamed, Fault(7), rules);
    var done := After(failed, Recheck(7, false), rules);
    RunTwo(renamed, Fault(7), Recheck(7, false), rules);
  }

  lemma {:induction false} RunTwo(w: World, a: Step, b: Step, rules: Rules)
    requires w.entries != []
    ensures Run(w, [a, b], rules) == After(After(w, a, rules), b, rules)
  {
    hide After;
    var steps := [a, b];
    RunOne(w, steps, rules);
    RunOne(After(w, a, rules), steps[1..], rules);
    assert steps[1..][1..] == [];
  }

  // ----- One publisher, as the code runs it -----

  /** Which operations succeed: reading the manifest for the check, each file operation, reading it back. */
  datatype Outcomes = Outcomes(checkRead: bool, create: bool, write: bool, sync: bool, rename: bool,
    directorySync: bool, reread: bool)

  predicate Replaces(o: Outcomes) {
    o.create && o.write && o.sync && o.rename
  }

  /** The collection directory: the manifest's entries since the last directory synchronization, and the
      temporary file. */
  class ManifestDirectory {
    var entries: seq<Option<File>>
    var temp: Option<File>

    ghost predicate Valid()
      reads this
    {
      entries != [] && temp.None?
    }

    /** `atomic_write_with`: the temporary file is complete and synchronized before it takes the name,
        and it is removed when any operation fails. */
    method AtomicWrite(candidate: Manifest, o: Outcomes) returns (ok: bool)
      requires Valid()
      modifies this
      ensures Valid() && ok == (Replaces(o) && o.directorySync)
      ensures entries ==
        if !Replaces(o) then old(entries)
        else if o.directorySync then [Some(File(Some(candidate), true))]
        else old(entries) + [Some(File(Some(candidate), true))]
    {
      ok := false;
      if o.create {
        temp := Some(File(None, false));
        if o.write {
          temp := Some(File(Some(candidate), false));
          if o.sync {
            temp := Some(temp.value.(synced := true));
            if o.rename {
              entries, temp := entries + [temp], None;
              if o.directorySync {
                entries := [Visible(entries)];
                ok := true;
              }
            }
          }
        }
      }
      if !ok {
        temp := None;
      }
    }

    /** `publish_prepared`: Ok means the candidate is the manifest on disk. What is on disk changes only to
        the candidate, over the base it names. An error whose reading back worked left the disk as it was. */
    method PublishPrepared(
      expected: Option<Manifest>, candidate: Manifest, rules: Rules, o: Outcomes) returns (ok: bool)
      requires Valid() && Read(Visible(entries)).Ok?
      modifies this
      ensures Valid()
      ensures ok ==> Read(Visible(entries)) == Ok(Some(candidate))
      ensures Read(Visible(entries)) == old(Read(Visible(entries))) ||
        (old(Read(Visible(entries))) == Ok(expected) && Read(Visible(entries)) == Ok(Some(candidate))
          && Installed(rules, expected, candidate))
      ensures !ok && o.reread ==> entries == old(entries)
      ensures ok && o.directorySync ==> |entries| == 1
      ensures ok <==>
        && o.checkRead
        && old(Read(Visible(entries))) == Ok(expected)
        && candidate.generation == (if expected.Some? then expected.value.generation else 0) + 1 < GENERATION_LIMIT
        && rules.valid(candidate) && rules.transition(expected, candidate)
        && (expected.Some? && expected.value.graph.Some? ==>
              && candidate.graph.Some?
              && expected.value.graph.value.overlay < candidate.graph.value.overlay
              && expected.value.graph.value.epoch <= candidate.graph.value.epoch
              && expected.value.graph.value.version <= candidate.graph.value.version
              && (expected.value.graph.value.epoch == candidate.graph.value.epoch ==>
                    expected.value.graph.value.watermark <= candidate.graph.value.watermark))
        && o.create && o.write && o.sync && o.rename
        && (o.directorySync || o.reread)
    {
      var current := Read(Visible(entries));
      if !o.checkRead || !Acceptable(rules, current.value, expected, candidate) {
        return false;
      }
      ok := false;
      if Writable(rules, current.value, candidate) {
        ok := AtomicWrite(candidate, o);
      }
      if !ok {
        ok := o.reread && Read(Visible(entries)) == Ok(Some(candidate));
      }
    }
  }
}
