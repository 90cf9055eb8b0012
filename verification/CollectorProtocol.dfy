/**
 Any number of garbage collection cycles running beside commands, uploads and deletions.

 A cycle notes its start, later collects the live IDs under one read lock, then lists nodes
 one by one and deletes orphans file by file; every other step may happen in between.
 It lists the nodes registered when it copied the node list, after collecting.
 A node stamps files with its own clock, which may run up to `lag` behind the server's.
 */
module CollectorProtocol {
  import opened Paths
  import opened Options
  import opened Subtrees
  import opened Metadata
  import opened Invariants
  import opened Logs
  import opened Identity
  import opened Namespace
  import opened RepairLists
  import opened ReplicaLists
  import opened GarbageCollector

  /** The files of one DataNode with their modification times. */
  type Disk = map<string, Time>

  /** issuedThen records which IDs had been issued when the live ones were collected. */
  datatype Phase = Started | Collected(valid: set<FileId>, issuedThen: set<FileId>)

  /** nodes is the copy of the node list, once it has been taken. */
  datatype Cycle = Cycle(start: Time, phase: Phase, nodes: Option<seq<Addr>>, listings: map<Addr, Disk>)

  /** issued are the IDs commands have brought, history what handlers and repairs go by. */
  datatype System = System(
    clock: Time, meta: Meta, issued: set<FileId>, history: History, disks: map<Addr, Disk>, cycles: seq<Cycle>)

  datatype Step =
    | Tick(clock: Time)
    | Commit(cmd: Command, now: Time)
    | Upload(addr: Addr, id: FileId, stamp: Time)      // StoreData, PartialWrite, Truncate, ReplicateFile
    | ClientDelete(addr: Addr, path: string)
    | StartCycle
    | Collect(cycle: nat)
    | CopyNodes(cycle: nat)
    | List(cycle: nat, addr: Addr)
    | CollectorDelete(cycle: nat, addr: Addr, path: string)

  function DiskOf(s: System, addr: Addr): Disk {
    if addr in s.disks then s.disks[addr] else map[]
  }

  ghost predicate Initial(s: System) {
    && s.meta == InitialMeta(s.clock) && s.history == NoHistory(s.meta)
    && s.issued == {} && s.disks == map[] && s.cycles == []
  }

  /** A data path is written only after the command that brought its ID has been applied. */
  ghost predicate Enabled(s: System, step: Step, lag: Time) {
    match step
    case Tick(clock) => s.clock <= clock
    case Commit(cmd, _) => CarriesId(cmd) ==> cmd.fileID != "" && cmd.fileID !in s.issued
    case Upload(_, id, stamp) => id in s.issued && stamp >= s.clock - lag
    case ClientDelete(_, _) => true
    case StartCycle => true
    case Collect(i) => i < |s.cycles| && s.cycles[i].phase == Started
    case CopyNodes(i) => i < |s.cycles| && s.cycles[i].phase.Collected? && s.cycles[i].nodes == None
    case List(i, addr) =>
      i < |s.cycles| && s.cycles[i].phase.Collected? && s.cycles[i].nodes.Some? && addr in s.cycles[i].nodes.value
    case CollectorDelete(i, addr, path) =>
      && i < |s.cycles| && s.cycles[i].phase.Collected? && addr in s.cycles[i].listings
      && path in s.cycles[i].listings[addr]
      && IsOrphan(NodeFile(path, s.cycles[i].listings[addr][path]), s.cycles[i].phase.valid, s.cycles[i].start)
  }

  ghost function Next(s: System, step: Step, lag: Time): System
    requires Enabled(s, step, lag)
  {
    match step
    case Tick(clock) => s.(clock := clock)
    case Commit(cmd, now) =>
      s.(meta := Apply(s.meta, cmd, now).0,
         issued := s.issued + (if CarriesId(cmd) then {cmd.fileID} else {}),
         history := Advance(s.history, s.meta, cmd, now))
    case Upload(addr, id, stamp) => s.(disks := s.disks[addr := DiskOf(s, addr)[DataPath(id) := stamp]])
    case ClientDelete(addr, path) => s.(disks := s.disks[addr := DiskOf(s, addr) - {path}])
    case StartCycle => s.(cycles := s.cycles + [Cycle(s.clock, Started, None, map[])])
    case Collect(i) =>
      var c := s.cycles[i];
      s.(cycles := s.cycles[i := c.(phase := Collected(FileIds(s.meta.tree, []), s.issued))])
    case CopyNodes(i) => s.(cycles := s.cycles[i := s.cycles[i].(nodes := Some(s.meta.nodes))])
    case List(i, addr) =>
      var c := s.cycles[i];
      s.(cycles := s.cycles[i := c.(listings := c.listings[addr := DiskOf(s, addr)])])
    case CollectorDelete(i, addr, path) => s.(disks := s.disks[addr := DiskOf(s, addr) - {path}])
  }

  /** The system goes through the states by the steps. */
  ghost predicate Course(states: seq<System>, steps: seq<Step>, lag: Time) {
    && |states| == |steps| + 1
    && forall i | 0 <= i < |steps| ::
         Enabled(states[i], steps[i], lag) && states[i + 1] == Next(states[i], steps[i], lag)
  }

  ghost predicate Run(states: seq<System>, steps: seq<Step>, lag: Time) {
    Course(states, steps, lag) && Initial(states[0])
  }

  ghost predicate FileWithId(t: Tree, id: FileId) {
    exists p | IsFileAt(t, p) :: t[p].fileID == id
  }

  /** The step, other than a client's deletion, takes data of a file in the tree off a disk. */
  ghost predicate LosesLive(s: System, step: Step, s': System) {
    !step.ClientDelete? && exists addr, id | FileWithId(s.meta.tree, id) ::
      DataPath(id) in DiskOf(s, addr) && DataPath(id) !in DiskOf(s', addr)
  }

  /** The collector is about to delete data of a file in the tree. */
  ghost predicate AimsAtLive(s: System, step: Step) {
    step.CollectorDelete? && exists id | FileWithId(s.meta.tree, id) :: step.path == DataPath(id)
  }

  // ----- what steps do -----

  /**
   A path leaves a disk only when it is deleted there, by a client or a cycle, and then it does
   leave; it comes to a disk, or gets a new stamp, only by an upload.
   */
  lemma DiskFrame(s: System, step: Step, lag: Time, addr: Addr, path: string)
    requires Enabled(s, step, lag)
    ensures var d, d' := DiskOf(s, addr), DiskOf(Next(s, step, lag), addr);
            var deleted := (step.ClientDelete? || step.CollectorDelete?) && step.addr == addr && step.path == path;
            var uploaded := step.Upload? && step.addr == addr && DataPath(step.id) == path;
            && (path in d' <==> uploaded || (path in d && !deleted))
            && (path in d' ==> d'[path] == if uploaded then step.stamp else d[path])
  {
  }

  /** Only a command changes the metadata, only a tick the clock, and only its own steps a cycle. */
  lemma StepFrame(s: System, step: Step, lag: Time, i: nat)
    requires Enabled(s, step, lag)
    ensures var s' := Next(s, step, lag);
            && s'.clock == (if step.Tick? then step.clock else s.clock)
            && s'.meta == (if step.Commit? then Apply(s.meta, step.cmd, step.now).0 else s.meta)
            && |s'.cycles| == |s.cycles| + (if step.StartCycle? then 1 else 0)
            && (step.StartCycle? ==> s'.cycles[|s.cycles|] == Cycle(s.clock, Started, None, map[]))
            && (i < |s.cycles| ==>
                  var c, c' := s.cycles[i], s'.cycles[i];
                  if step == Collect(i) then c' == c.(phase := Collected(FileIds(s.meta.tree, []), s.issued))
                  else if step == CopyNodes(i) then c' == c.(nodes := Some(s.meta.nodes))
                  else if step.List? && step.cycle == i
                  then c' == c.(listings := c.listings[step.addr := DiskOf(s, step.addr)])
                  else c' == c)
  {
  }

  // ----- the invariant -----

  ghost predicate DiskSound(s: System, addr: Addr, id: FileId) {
    DataPath(id) in DiskOf(s, addr) ==> id in s.issued
  }

  /** An ID issued by the time of the collection and not collected belongs to no file. */
  ghost predicate Complete(s: System, c: Cycle, id: FileId) {
    c.phase.Collected? && id in c.phase.issuedThen && id !in c.phase.valid ==> !FileWithId(s.meta.tree, id)
  }

  /** Data of IDs issued after the collection is too recent for this cycle. */
  ghost predicate RecentOn(c: Cycle, d: Disk, id: FileId) {
    c.phase.Collected? && DataPath(id) in d && id !in c.phase.issuedThen ==> d[DataPath(id)] > c.start - SAFETY_WINDOW
  }

  ghost predicate CycleSound(s: System, c: Cycle) {
    && c.start <= s.clock
    && (c.phase == Started ==> c.listings == map[])
    && (c.phase.Collected? ==> c.phase.issuedThen <= s.issued)
    && (forall id {:trigger Complete(s, c, id)} :: Complete(s, c, id))
    && (forall addr, id {:trigger RecentOn(c, DiskOf(s, addr), id)} :: RecentOn(c, DiskOf(s, addr), id))
    && (forall addr, id {:trigger RecentOn(c, c.listings[addr], id)} | addr in c.listings ::
         RecentOn(c, c.listings[addr], id))
  }

  ghost predicate Sound(s: System) {
    && WellFormed(s.meta.tree) && UniqueIds(s.meta.tree)
    && Remembers(s.history, s.meta) && "" !in s.issued
    && (forall id {:trigger Live(s.meta.tree, id)} | Live(s.meta.tree, id) :: id in s.issued)
    && (forall addr, id {:trigger DiskSound(s, addr, id)} :: DiskSound(s, addr, id))
    && (forall i {:trigger CycleSound(s, s.cycles[i])} | 0 <= i < |s.cycles| :: CycleSound(s, s.cycles[i]))
  }

  lemma FileIsLive(t: Tree, id: FileId)
    requires WellFormed(t) && FileWithId(t, id)
    ensures Live(t, id)
  {
    var p :| IsFileAt(t, p) && t[p].fileID == id;
  }

  /** A file's ID is on a file before the command too, unless the command brings it. */
  lemma FileWasThere(t: Tree, c: Command, now: Time, id: FileId)
    requires WellFormed(t) && FileWithId(ApplyTree(t, c, now).0, id)
    requires CarriesId(c) ==> c.fileID != id
    ensures FileWithId(t, id)
  {
    var t' := ApplyTree(t, c, now).0;
    var p :| IsFileAt(t', p) && t'[p].fileID == id;
    ApplyKeepsTree(t, c, now);
    StepOrigin(t, c, now, p);
    assert IsFileAt(t, Source(t, c, p));
  }

  lemma CollectedIsComplete(t: Tree, id: FileId)
    requires FileWithId(t, id) && id != ""
    ensures id in FileIds(t, [])
  {
    var p :| IsFileAt(t, p) && t[p].fileID == id;
    assert [] <= p;
  }

  lemma DiskStep(s: System, step: Step, lag: Time)
    requires Sound(s) && Enabled(s, step, lag)
    ensures forall addr, id {:trigger DiskSound(Next(s, step, lag), addr, id)} ::
              DiskSound(Next(s, step, lag), addr, id)
  {
    var s' := Next(s, step, lag);
    forall addr, id
      ensures DiskSound(s', addr, id)
    {
      assert DiskSound(s, addr, id);
      if step.Upload? && DataPath(id) == DataPath(step.id) {
        DataPathInjective(id, step.id);
      }
    }
  }

  lemma CompleteStep(s: System, step: Step, lag: Time, c: Cycle, id: FileId)
    requires Sound(s) && Enabled(s, step, lag) && CycleSound(s, c)
    ensures Complete(Next(s, step, lag), c, id)
  {
    assert Complete(s, c, id);
    if step.Commit? && c.phase.Collected? && id in c.phase.issuedThen && FileWithId(Next(s, step, lag).meta.tree, id) {
      assert Next(s, step, lag).meta.tree == ApplyTree(s.meta.tree, step.cmd, step.now).0;
      FileWasThere(s.meta.tree, step.cmd, step.now, id);
    }
  }

  lemma RecentStep(s: System, step: Step, lag: Time, c: Cycle, addr: Addr, id: FileId)
    requires lag < SAFETY_WINDOW && Enabled(s, step, lag) && c.start <= s.clock
    requires RecentOn(c, DiskOf(s, addr), id)
    ensures RecentOn(c, DiskOf(Next(s, step, lag), addr), id)
  {
  }

  /** A cycle this step does not advance stays sound. */
  lemma CycleStep(s: System, step: Step, lag: Time, c: Cycle)
    requires lag < SAFETY_WINDOW && Sound(s) && Enabled(s, step, lag) && CycleSound(s, c)
    ensures CycleSound(Next(s, step, lag), c)
  {
    var s' := Next(s, step, lag);
    forall id
      ensures Complete(s', c, id)
    {
      CompleteStep(s, step, lag, c, id);
    }
    forall addr, id
      ensures RecentOn(c, DiskOf(s', addr), id)
    {
      assert RecentOn(c, DiskOf(s, addr), id);
      RecentStep(s, step, lag, c, addr, id);
    }
  }

  lemma CollectStep(s: System, i: nat, lag: Time)
    requires Sound(s) && Enabled(s, Collect(i), lag)
    ensures CycleSound(Next(s, Collect(i), lag), Next(s, Collect(i), lag).cycles[i])
  {
    var s' := Next(s, Collect(i), lag);
    var c := s'.cycles[i];
    assert CycleSound(s, s.cycles[i]);
    forall id
      ensures Complete(s', c, id)
    {
      if id in s.issued && FileWithId(s.meta.tree, id) {
        CollectedIsComplete(s.meta.tree, id);
      }
    }
    forall addr, id
      ensures RecentOn(c, DiskOf(s', addr), id)
    {
      assert DiskSound(s, addr, id);
    }
  }

  lemma ListStep(s: System, i: nat, addr: Addr, lag: Time)
    requires Sound(s) && Enabled(s, List(i, addr), lag)
    ensures CycleSound(Next(s, List(i, addr), lag), Next(s, List(i, addr), lag).cycles[i])
  {
    var s' := Next(s, List(i, addr), lag);
    var b, c := s.cycles[i], s'.cycles[i];
    assert CycleSound(s, b);
    forall id
      ensures Complete(s', c, id)
    {
      assert Complete(s, b, id);
    }
    forall a, id
      ensures RecentOn(c, DiskOf(s', a), id)
    {
      assert RecentOn(b, DiskOf(s, a), id);
    }
    forall a, id | a in c.listings
      ensures RecentOn(c, c.listings[a], id)
    {
      if a == addr {
        assert RecentOn(b, DiskOf(s, a), id);
      } else {
        assert RecentOn(b, b.listings[a], id);
      }
    }
  }

  lemma CopyStep(s: System, i: nat, lag: Time)
    requires Sound(s) && Enabled(s, CopyNodes(i), lag)
    ensures CycleSound(Next(s, CopyNodes(i), lag), Next(s, CopyNodes(i), lag).cycles[i])
  {
    var s' := Next(s, CopyNodes(i), lag);
    var b, c := s.cycles[i], s'.cycles[i];
    assert CycleSound(s, b);
    forall id
      ensures Complete(s', c, id)
    {
      assert Complete(s, b, id);
    }
    forall a, id
      ensures RecentOn(c, DiskOf(s', a), id)
    {
      assert RecentOn(b, DiskOf(s, a), id);
    }
    forall a, id | a in c.listings
      ensures RecentOn(c, c.listings[a], id)
    {
      assert RecentOn(b, b.listings[a], id);
    }
  }

  lemma StartStep(s: System, lag: Time)
    requires Sound(s)
    ensures CycleSound(Next(s, StartCycle, lag), Cycle(s.clock, Started, None, map[]))
  {
  }

  lemma IssuedStep(s: System, step: Step, lag: Time)
    requires Sound(s) && Enabled(s, step, lag)
    ensures var s' := Next(s, step, lag);
            && WellFormed(s'.meta.tree) && UniqueIds(s'.meta.tree) && Remembers(s'.history, s'.meta) && "" !in s'.issued
            && forall id {:trigger Live(s'.meta.tree, id)} | Live(s'.meta.tree, id) :: id in s'.issued
  {
    var s' := Next(s, step, lag);
    if step.Commit? {
      var t, t' := s.meta.tree, s'.meta.tree;
      TreeOfApply(s.meta, step.cmd, step.now);
      ApplyKeepsTree(t, step.cmd, step.now);
      StepKeepsUnique(t, step.cmd, step.now);
      AdvanceRemembers(s.history, s.meta, step.cmd, step.now);
      forall id | Live(t', id)
        ensures id in s'.issued
      {
        StepLive(t, step.cmd, step.now, id);
      }
    }
  }

  lemma StepKeepsSound(s: System, step: Step, lag: Time)
    requires lag < SAFETY_WINDOW && Sound(s) && Enabled(s, step, lag)
    ensures Sound(Next(s, step, lag))
  {
    var s' := Next(s, step, lag);
    IssuedStep(s, step, lag);
    DiskStep(s, step, lag);
    forall i | 0 <= i < |s'.cycles|
      ensures CycleSound(s', s'.cycles[i])
    {
      if step.Collect? && step.cycle == i {
        CollectStep(s, i, lag);
      } else if step.CopyNodes? && step.cycle == i {
        CopyStep(s, i, lag);
      } else if step.List? && step.cycle == i {
        ListStep(s, i, step.addr, lag);
      } else if i < |s.cycles| {
        assert CycleSound(s, s.cycles[i]);
        CycleStep(s, step, lag, s.cycles[i]);
      } else {
        StartStep(s, lag);
      }
    }
  }

  lemma SoundIsSafe(s: System, step: Step, lag: Time)
    requires Sound(s) && Enabled(s, step, lag)
    ensures !AimsAtLive(s, step) && !LosesLive(s, step, Next(s, step, lag))
  {
    forall addr, id
      ensures DataPath(id) in DiskOf(s, addr) && DataPath(id) !in DiskOf(Next(s, step, lag), addr) ==>
                (step.ClientDelete? || step.CollectorDelete?) && step.path == DataPath(id)
    {
      DiskFrame(s, step, lag, addr, DataPath(id));
    }
    if step.CollectorDelete? {
      var c := s.cycles[step.cycle];
      var stamp := c.listings[step.addr][step.path];
      assert CycleSound(s, c);
      forall id | step.path == DataPath(id)
        ensures !FileWithId(s.meta.tree, id)
      {
        OrphanOfId(id, stamp, c.phase.valid, c.start);
        assert RecentOn(c, c.listings[step.addr], id);
        assert Complete(s, c, id);
        if FileWithId(s.meta.tree, id) {
          FileIsLive(s.meta.tree, id);
        }
      }
    }
  }

  /** Every list so far was under the file's own ID, and every ID one that has been issued. */
  ghost predicate Matched(s: System) {
    HistoryMatches(s.history) && HistoryIssued(s.history, s.issued)
  }

  lemma {:induction false} CourseIsSound(states: seq<System>, steps: seq<Step>, lag: Time, i: nat)
    requires lag < SAFETY_WINDOW && Course(states, steps, lag) && i < |states| && Sound(states[0])
    ensures Sound(states[i])
  {
    if i > 0 {
      CourseIsSound(states, steps, lag, i - 1);
      assert Enabled(states[i - 1], steps[i - 1], lag);
      StepKeepsSound(states[i - 1], steps[i - 1], lag);
    }
  }

  lemma InitialIsSound(s: System)
    requires Initial(s)
    ensures Sound(s) && Matched(s)
  {
    assert Hangs(InitialTree(s.clock), []);
  }

  /**
   In every interleaving, as long as node clocks lag by less than the safety window, no step but
   a client's deletion takes /data/{id} off any disk while a file with that ID is in the tree.
   */
  lemma CollectorIsSafe(states: seq<System>, steps: seq<Step>, lag: Time, i: nat)
    requires lag < SAFETY_WINDOW && Run(states, steps, lag) && i < |steps|
    ensures !LosesLive(states[i], steps[i], states[i + 1])
  {
    InitialIsSound(states[0]);
    CourseIsSound(states, steps, lag, i);
    assert Enabled(states[i], steps[i], lag);
    SoundIsSafe(states[i], steps[i], lag);
  }

  // ----- data that live files point to -----

  /** The step, other than a client's deletion, takes a replica off its disk that some file's list names. */
  ghost predicate LosesReferenced(s: System, step: Step, s': System) {
    !step.ClientDelete? && exists p, r | IsFileAt(s.meta.tree, p) && r in s.meta.tree[p].replicas ::
      r.remotePath in DiskOf(s, r.addr) && r.remotePath !in DiskOf(s', r.addr)
  }

  ghost predicate HandlerRun(states: seq<System>, steps: seq<Step>) {
    |states| == |steps| + 1 &&
    forall i | 0 <= i < |steps| && steps[i].Commit? :: HandlerIssued(states[i].history, steps[i].cmd)
  }

  ghost predicate NothingMisnamed(states: seq<System>, steps: seq<Step>) {
    |states| == |steps| + 1 &&
    forall i | 0 <= i < |steps| && steps[i].Commit? :: !Misnames(states[i].history, states[i].meta.tree, steps[i].cmd)
  }

  /** From s on, commands are as handlers and repairs issue them, without overwrites and stale swaps. */
  ghost predicate Continues(s: System, states: seq<System>, steps: seq<Step>, lag: Time) {
    Course(states, steps, lag) && states[0] == s && HandlerRun(states, steps) && NothingMisnamed(states, steps)
  }

  lemma CommitKeepsMatched(s: System, c: Command, now: Time, lag: Time)
    requires Sound(s) && Matched(s) && Enabled(s, Commit(c, now), lag)
    requires HandlerIssued(s.history, c) && !Misnames(s.history, s.meta.tree, c)
    ensures Matched(Next(s, Commit(c, now), lag))
  {
    StepKeepsMatches(s.history, s.meta, c, now);
    StepKeepsIssued(s.history, s.issued, Next(s, Commit(c, now), lag).issued, s.meta, c, now);
  }

  lemma {:induction false} StaysMatched(s: System, states: seq<System>, steps: seq<Step>, lag: Time, i: nat)
    requires lag < SAFETY_WINDOW && Continues(s, states, steps, lag) && i < |states|
    requires Sound(s) && Matched(s)
    ensures Matched(states[i])
  {
    if i > 0 {
      var r, step := states[i - 1], steps[i - 1];
      StaysMatched(s, states, steps, lag, i - 1);
      CourseIsSound(states, steps, lag, i - 1);
      assert Enabled(r, step, lag);
      if step.Commit? {
        CommitKeepsMatched(r, step.cmd, step.now, lag);
      }
    }
  }

  /** No continuation without overwrites and stale swaps loses a replica that a file in the tree names. */
  ghost predicate Spares(s: System, lag: Time) {
    forall states, steps, i: nat | Continues(s, states, steps, lag) && i < |steps| ::
        !LosesReferenced(states[i], steps[i], states[i + 1])
  }

  lemma MatchedIsSpared(s: System, lag: Time)
    requires lag < SAFETY_WINDOW && Sound(s) && Matched(s)
    ensures Spares(s, lag)
  {
    forall states, steps, i: nat | Continues(s, states, steps, lag) && i < |steps|
      ensures !LosesReferenced(states[i], steps[i], states[i + 1])
    {
      var r, step := states[i], steps[i];
      CourseIsSound(states, steps, lag, i);
      assert Enabled(r, step, lag);
      SoundIsSafe(r, step, lag);
      StaysMatched(s, states, steps, lag, i);
      MatchedTree(r.history, r.meta);
      if LosesReferenced(r, step, states[i + 1]) {
        var p, x :| IsFileAt(r.meta.tree, p) && x in r.meta.tree[p].replicas &&
          x.remotePath in DiskOf(r, x.addr) && x.remotePath !in DiskOf(states[i + 1], x.addr);
        assert PathMatchesAt(r.meta.tree, p);
        assert FileWithId(r.meta.tree, r.meta.tree[p].fileID);
      }
    }
  }

  /** Without overwrites and stale swaps no cycle deletes a replica that a file in the tree names. */
  lemma CollectorSparesReplicas(s: System, lag: Time)
    requires lag < SAFETY_WINDOW && Initial(s)
    ensures Spares(s, lag)
  {
    InitialIsSound(s);
    MatchedIsSpared(s, lag);
  }

  // ----- reaching states -----

  ghost predicate LeadsTo(s0: System, s: System, lag: Time) {
    exists states, steps :: Continues(s0, states, steps, lag) && states[|steps|] == s
  }

  /** Some run of issued commands without overwrites and stale swaps ends in s. */
  ghost predicate Reached(s: System, lag: Time) {
    exists s0 :: Initial(s0) && LeadsTo(s0, s, lag)
  }

  /** The step is taken in s in some continuation of s0. */
  ghost predicate Takes(s0: System, s: System, step: Step, lag: Time) {
    exists states, steps, i: nat ::
      Continues(s0, states, steps, lag) && i < |steps| && states[i] == s && steps[i] == step
  }

  lemma LeadStart(s: System, lag: Time)
    ensures LeadsTo(s, s, lag)
  {
    var states, steps: seq<Step> := [s], [];
    assert Continues(s, states, steps, lag) && states[|steps|] == s;
  }

  lemma Extend(s0: System, s: System, step: Step, lag: Time)
    requires LeadsTo(s0, s, lag) && Enabled(s, step, lag)
    requires step.Commit? ==> HandlerIssued(s.history, step.cmd) && !Misnames(s.history, s.meta.tree, step.cmd)
    ensures LeadsTo(s0, Next(s, step, lag), lag) && Takes(s0, s, step, lag)
  {
    var states, steps :| Continues(s0, states, steps, lag) && states[|steps|] == s;
    OneMore(s0, states, steps, step, lag);
    var states', steps' := states + [Next(s, step, lag)], steps + [step];
    assert states'[|steps'|] == Next(s, step, lag);
    assert states'[|steps|] == s && steps'[|steps|] == step;
  }

  lemma OneMore(s0: System, states: seq<System>, steps: seq<Step>, step: Step, lag: Time)
    requires Continues(s0, states, steps, lag) && Enabled(states[|steps|], step, lag)
    requires var s := states[|steps|];
             step.Commit? ==> HandlerIssued(s.history, step.cmd) && !Misnames(s.history, s.meta.tree, step.cmd)
    ensures Continues(s0, states + [Next(states[|steps|], step, lag)], steps + [step], lag)
  {
    var n := |steps|;
    var states', steps' := states + [Next(states[n], step, lag)], steps + [step];
    assert states'[0] == s0;
    forall i | 0 <= i < |steps'|
      ensures Enabled(states'[i], steps'[i], lag) && states'[i + 1] == Next(states'[i], steps'[i], lag)
    {
      if i < n {
        assert states'[i] == states[i] && steps'[i] == steps[i] && states'[i + 1] == states[i + 1];
      }
    }
    forall i | 0 <= i < |steps'| && steps'[i].Commit?
      ensures HandlerIssued(states'[i].history, steps'[i].cmd)
      ensures !Misnames(states'[i].history, states'[i].meta.tree, steps'[i].cmd)
    {
      if i < n {
        assert states'[i] == states[i] && steps'[i] == steps[i];
      }
    }
  }

  lemma ReachedIsSound(s: System, lag: Time)
    requires lag < SAFETY_WINDOW && Reached(s, lag)
    ensures Sound(s) && Matched(s)
  {
    var s0 :| Initial(s0) && LeadsTo(s0, s, lag);
    var states, steps :| Continues(s0, states, steps, lag) && states[|steps|] == s;
    InitialIsSound(s0);
    CourseIsSound(states, steps, lag, |steps|);
    StaysMatched(s0, states, steps, lag, |steps|);
  }

  /** A node registers, whether or not it had before. */
  lemma LeadHeartbeat(s0: System, s: System, addr: Addr, lag: Time) returns (s': System)
    requires LeadsTo(s0, s, lag)
    ensures LeadsTo(s0, s', lag) && s' == s.(meta := s'.meta, history := s'.history)
    ensures s'.meta.tree == s.meta.tree && addr in s'.meta.nodes && s'.history.known == s.history.known + {addr}
    ensures s'.meta.nodes == Register(s.meta.nodes, addr)
  {
    s' := Next(s, Commit(Heartbeat(addr), 0), lag);
    Extend(s0, s, Commit(Heartbeat(addr), 0), lag);
  }

  /** A cycle starts, collects and copies the node list. */
  lemma LeadCycle(s0: System, s: System, lag: Time) returns (s': System)
    requires LeadsTo(s0, s, lag)
    ensures LeadsTo(s0, s', lag)
    ensures s' == s.(cycles := s.cycles +
                       [Cycle(s.clock, Collected(FileIds(s.meta.tree, []), s.issued), Some(s.meta.nodes), map[])])
  {
    var n := |s.cycles|;
    ThreeSteps(s, lag);
    Extend(s0, s, StartCycle, lag);
    Extend(s0, Next(s, StartCycle, lag), Collect(n), lag);
    Extend(s0, Next(Next(s, StartCycle, lag), Collect(n), lag), CopyNodes(n), lag);
    s' := Next(Next(Next(s, StartCycle, lag), Collect(n), lag), CopyNodes(n), lag);
  }

  lemma ThreeSteps(s: System, lag: Time)
    ensures var s1 := Next(s, StartCycle, lag);
            && Enabled(s1, Collect(|s.cycles|), lag)
            && var s2 := Next(s1, Collect(|s.cycles|), lag);
            && Enabled(s2, CopyNodes(|s.cycles|), lag)
            && Next(s2, CopyNodes(|s.cycles|), lag) ==
               s.(cycles := s.cycles +
                    [Cycle(s.clock, Collected(FileIds(s.meta.tree, []), s.issued), Some(s.meta.nodes), map[])])
  {
    var n := |s.cycles|;
    var c := Cycle(s.clock, Started, None, map[]);
    var d := c.(phase := Collected(FileIds(s.meta.tree, []), s.issued));
    assert (s.cycles + [c])[n := d] == s.cycles + [d];
    assert (s.cycles + [d])[n := d.(nodes := Some(s.meta.nodes))] == s.cycles + [d.(nodes := Some(s.meta.nodes))];
  }

  /** The last cycle lists a node it knows and deletes an orphan there. */
  lemma LeadDelete(s0: System, s: System, addr: Addr, id: FileId, lag: Time) returns (s': System)
    requires LeadsTo(s0, s, lag) && s.cycles != [] && DataPath(id) in DiskOf(s, addr)
    requires var c := s.cycles[|s.cycles| - 1];
             && c.phase.Collected? && c.nodes.Some? && addr in c.nodes.value
             && IsOrphan(NodeFile(DataPath(id), DiskOf(s, addr)[DataPath(id)]), c.phase.valid, c.start)
    ensures s' == s.(cycles := s'.cycles) && Takes(s0, s', CollectorDelete(|s.cycles| - 1, addr, DataPath(id)), lag)
  {
    var n := |s.cycles| - 1;
    s' := Next(s, List(n, addr), lag);
    Extend(s0, s, List(n, addr), lag);
    Extend(s0, s', CollectorDelete(n, addr, DataPath(id)), lag);
  }

  lemma LeadUpload(s0: System, s: System, addr: Addr, id: FileId, stamp: Time, lag: Time) returns (s': System)
    requires LeadsTo(s0, s, lag) && id in s.issued && stamp >= s.clock - lag
    ensures LeadsTo(s0, s', lag) && s' == s.(disks := s'.disks)
    ensures DataPath(id) in DiskOf(s', addr) && DiskOf(s', addr)[DataPath(id)] == stamp
  {
    s' := Next(s, Upload(addr, id, stamp), lag);
    Extend(s0, s, Upload(addr, id, stamp), lag);
  }

  // ----- both conditions are exact -----

  /** Data under an issued ID that no file has can be uploaded, and is deleted by a cycle past the window. */
  lemma LeadLoss(s: System, addr: Addr, id: FileId, lag: Time) returns (s': System, step: Step)
    requires id in s.issued && id !in FileIds(s.meta.tree, [])
    ensures s'.meta.tree == s.meta.tree && Takes(s, s', step, lag) && DataPath(id) in DiskOf(s', addr)
    ensures step.CollectorDelete? && step.addr == addr && step.path == DataPath(id)
  {
    LeadStart(s, lag);
    var s1 := LeadHeartbeat(s, s, addr, lag);
    var stamp := if lag < 0 then s.clock - lag else s.clock;
    var s2 := LeadUpload(s, s1, addr, id, stamp, lag);
    var tick := Tick(stamp + SAFETY_WINDOW);
    Extend(s, s2, tick, lag);
    var s3 := LeadCycle(s, Next(s2, tick, lag), lag);
    OrphanOfId(id, stamp, FileIds(s.meta.tree, []), stamp + SAFETY_WINDOW);
    s' := LeadDelete(s, s3, addr, id, lag);
    step := CollectorDelete(|s3.cycles| - 1, addr, DataPath(id));
  }

  /** Data under an issued ID that no file has, but that a file names, is lost on some continuation. */
  lemma UnownedIsLost(s: System, p: Path, r: Replica, id: FileId, lag: Time)
    requires IsFileAt(s.meta.tree, p) && r in s.meta.tree[p].replicas && r.remotePath == DataPath(id)
    requires id in s.issued && id !in FileIds(s.meta.tree, [])
    ensures !Spares(s, lag)
  {
    var s', step := LeadLoss(s, r.addr, id, lag);
    var states, steps, i: nat :| Continues(s, states, steps, lag) && i < |steps| && states[i] == s' && steps[i] == step;
    DiskFrame(s', step, lag, r.addr, r.remotePath);
    assert states[i + 1] == Next(s', step, lag);
    assert LosesReferenced(states[i], steps[i], states[i + 1]);
  }

  /** An overwrite installs replicas under an ID that no file has. */
  lemma OverwriteDisowns(h: History, t: Tree, c: Command, now: Time)
    requires WellFormed(t) && HandlerIssued(h, c) && Overwrites(t, c) && !Live(t, c.fileID)
    ensures var p, t' := Components(c.path), ApplyTree(t, c, now).0;
            && IsFileAt(t', p) && t'[p].replicas == c.replicas
            && c.replicas != [] && c.replicas[0].remotePath == DataPath(c.fileID)
            && c.fileID !in FileIds(t', [])
  {
    var p, t' := Components(c.path), ApplyTree(t, c, now).0;
    assert Hangs(t, p) && p != [];
    assert c.replicas[0] in c.replicas;
    forall q | q in t' && !t'[q].isDir
      ensures t'[q].fileID != c.fileID
    {
      assert q != [];
      StepOrigin(t, c, now, q);
    }
  }

  /** A stale swap installs replicas under the ID of another file, or of one that is gone. */
  lemma StaleInstalls(h: History, ids: set<FileId>, t: Tree, c: Command, now: Time) returns (id: FileId)
    requires h.marked <= h.seen && HistoryMatches(h) && HistoryIssued(h, ids) && Stale(h, t, c)
    ensures var p, t' := Components(c.path), ApplyTree(t, c, now).0;
            && IsFileAt(t', p) && t'[p].replicas == c.newReplicas && t'[p].fileID != id && id in ids
            && c.newReplicas != [] && c.newReplicas[0].remotePath == DataPath(id)
  {
    var x :| x in h.marked && SwapFor(x, c) && x.attrs.fileID != t[Components(c.path)].fileID;
    SwapIs(x.attrs, x.alive, c.newReplicas);
    id := x.attrs.fileID;
    assert x in h.seen && c.newReplicas[0] in c.newReplicas;
  }

  /** A step that misnames nothing can come first in a continuation. */
  lemma SparesOnward(s: System, step: Step, lag: Time)
    requires Spares(s, lag) && Enabled(s, step, lag)
    requires step.Commit? ==> HandlerIssued(s.history, step.cmd) && !Misnames(s.history, s.meta.tree, step.cmd)
    ensures Spares(Next(s, step, lag), lag)
  {
    var s' := Next(s, step, lag);
    forall states, steps, i: nat | Continues(s', states, steps, lag) && i < |steps|
      ensures !LosesReferenced(states[i], steps[i], states[i + 1])
    {
      OneBefore(s, step, states, steps, lag);
      var more, longer := [s] + states, [step] + steps;
      assert more[i + 1] == states[i] && longer[i + 1] == steps[i] && more[i + 2] == states[i + 1];
      assert !LosesReferenced(more[i + 1], longer[i + 1], more[i + 2]);
    }
  }

  lemma OneBefore(s: System, step: Step, states: seq<System>, steps: seq<Step>, lag: Time)
    requires Enabled(s, step, lag) && Continues(Next(s, step, lag), states, steps, lag)
    requires step.Commit? ==> HandlerIssued(s.history, step.cmd) && !Misnames(s.history, s.meta.tree, step.cmd)
    ensures Continues(s, [s] + states, [step] + steps, lag)
  {
    var more, longer := [s] + states, [step] + steps;
    forall i | 0 <= i < |longer|
      ensures Enabled(more[i], longer[i], lag) && more[i + 1] == Next(more[i], longer[i], lag)
    {
      if i > 0 {
        assert more[i] == states[i - 1] && longer[i] == steps[i - 1] && more[i + 1] == states[i];
      }
    }
    forall i | 0 <= i < |longer| && longer[i].Commit?
      ensures HandlerIssued(more[i].history, longer[i].cmd)
      ensures !Misnames(more[i].history, more[i].meta.tree, longer[i].cmd)
    {
      if i > 0 {
        assert more[i] == states[i - 1] && longer[i] == steps[i - 1];
      }
    }
  }

  /** A file that names data under an issued ID which is not its own can lose it: the owner, if any, is deleted. */
  lemma ForeignIsLost(s: System, p: Path, r: Replica, id: FileId, lag: Time)
    requires lag < SAFETY_WINDOW && Sound(s) && IsFileAt(s.meta.tree, p) && s.meta.tree[p].fileID != id
    requires r in s.meta.tree[p].replicas && r.remotePath == DataPath(id) && id in s.issued
    ensures !Spares(s, lag)
  {
    var t := s.meta.tree;
    if id !in FileIds(t, []) {
      UnownedIsLost(s, p, r, id, lag);
    } else {
      var q :| q in t && !t[q].isDir && t[q].fileID == id;
      assert Hangs(t, q) && q != [];
      ComponentsPathString(q);
      var delete := Commit(Delete(PathString(q)), 0);
      var s' := Next(s, delete, lag);
      TreeOfApply(s.meta, delete.cmd, 0);
      DeleteDisowns(t, p, q, id);
      UnownedIsLost(s', p, r, id, lag);
      if Spares(s, lag) {
        SparesOnward(s, delete, lag);
        assert false;
      }
    }
  }

  lemma DeleteDisowns(t: Tree, p: Path, q: Path, id: FileId)
    requires WellFormed(t) && UniqueIds(t) && IsFileAt(t, p) && IsFileAt(t, q) && p != q && q != []
    requires t[q].fileID == id
    ensures var t' := ApplyDelete(t, q, 0).0;
            IsFileAt(t', p) && t'[p].replicas == t[p].replicas && id !in FileIds(t', [])
  {
    var t' := ApplyDelete(t, q, 0).0;
    if q <= p {
      WellFormedAbove(t, q, p);
    }
    DeleteRemovesSubtree(t, q, 0, p);
    assert t'[p].(modTime := 0).replicas == t[p].(modTime := 0).replicas;
    forall u | u in t' && !t'[u].isDir
      ensures t'[u].fileID != id
    {
      DeleteRemovesSubtree(t, q, 0, u);
      assert SameId(t, u, q) && u != [];
    }
  }

  /**
   After a run without overwrites and stale swaps, an issued command leaves all named data safe on
   all such continuations exactly when it is neither of the two itself.
   */
  lemma CommitDecides(s: System, c: Command, now: Time, lag: Time)
    requires lag < SAFETY_WINDOW && Reached(s, lag) && Enabled(s, Commit(c, now), lag) && HandlerIssued(s.history, c)
    ensures Spares(Next(s, Commit(c, now), lag), lag) <==> !Misnames(s.history, s.meta.tree, c)
  {
    var s' := Next(s, Commit(c, now), lag);
    ReachedIsSound(s, lag);
    StepKeepsSound(s, Commit(c, now), lag);
    TreeOfApply(s.meta, c, now);
    if Overwrites(s.meta.tree, c) {
      OverwriteDisowns(s.history, s.meta.tree, c, now);
      UnownedIsLost(s', Components(c.path), c.replicas[0], c.fileID, lag);
    } else if Stale(s.history, s.meta.tree, c) {
      var id := StaleInstalls(s.history, s.issued, s.meta.tree, c, now);
      ForeignIsLost(s', Components(c.path), c.newReplicas[0], id, lag);
    } else {
      CommitKeepsMatched(s, c, now, lag);
      MatchedIsSpared(s', lag);
    }
  }

  // ----- such commands exist -----

  function NewFile(name: string, addr: Addr, id: FileId, mode: CreateMode): Command {
    CreateFile(name, 0, [Replica(addr, DataPath(id))], mode, id)
  }

  function NewAttrs(addr: Addr, id: FileId): Attrs {
    Attrs(false, 0, FILE_MODE, 0, 0, PENDING, id, [Replica(addr, DataPath(id))])
  }

  /** At a free name a file is created with its one replica. */
  lemma LeadCreate(s0: System, s: System, name: string, addr: Addr, id: FileId, lag: Time) returns (s': System)
    requires LeadsTo(s0, s, lag) && IsDirAt(s.meta.tree, []) && IsName(name) && [name] !in s.meta.tree
    requires addr in s.history.known && id != "" && id !in s.issued
    ensures LeadsTo(s0, s', lag) && s' == s.(meta := s'.meta, history := s'.history, issued := s.issued + {id})
    ensures s'.meta.tree == Touch(s.meta.tree, [], 0)[[name] := NewAttrs(addr, id)] && s'.meta.nodes == s.meta.nodes
    ensures s.history.marked <= s'.history.marked && s'.history.known == s.history.known
  {
    var create := NewFile(name, addr, id, CreateIfNotExist);
    ComponentsName(name);
    assert Parent([name]) == [];
    assert GoodList(create.replicas) && AllOn(create.replicas, s.history.known);
    s' := Next(s, Commit(create, 0), lag);
    Extend(s0, s, Commit(create, 0), lag);
  }

  /** Any command that neither brings an ID nor a list can follow. */
  lemma LeadPlain(s0: System, s: System, c: Command, lag: Time) returns (s': System)
    requires LeadsTo(s0, s, lag) && !CarriesId(c) && !c.UpdateReplicas?
    ensures LeadsTo(s0, s', lag) && s' == Next(s, Commit(c, 0), lag)
    ensures s'.meta.tree == ApplyTree(s.meta.tree, c, 0).0 && s'.issued == s.issued
  {
    TreeOfApply(s.meta, c, 0);
    s' := Next(s, Commit(c, 0), lag);
    Extend(s0, s, Commit(c, 0), lag);
  }

  /** Overwrites after such runs exist: a registered node, a file on it, and a create over that file. */
  lemma OverwritesHappen(lag: Time) returns (s: System, c: Command)
    ensures Reached(s, lag) && Enabled(s, Commit(c, 0), lag)
    ensures HandlerIssued(s.history, c) && Overwrites(s.meta.tree, c)
  {
    var s0 := Start();
    LeadStart(s0, lag);
    s := LeadHeartbeat(s0, s0, "a", lag);
    s := LeadCreate(s0, s, "f", "a", "1", lag);
    c := NewFile("f", "a", "2", OverwriteIfExists);
    ComponentsName("f");
    assert GoodList(c.replicas) && AllOn(c.replicas, s.history.known);
  }

  function Start(): System {
    var m := InitialMeta(0);
    System(0, m, {}, NoHistory(m), map[], [])
  }

  /** x is a sight of a complete file at path x, with its one replica on a, while a and b are alive. */
  ghost predicate OnOneOfTwo(x: Sight) {
    && x.path == ["x"] && !x.attrs.isDir && x.attrs.status == COMPLETE && x.attrs.fileID == "1"
    && x.attrs.replicas == [Replica("a", DataPath("1"))] && x.alive == {"a", "b"}
  }

  lemma TwoNodes(lag: Time) returns (s: System)
    ensures LeadsTo(Start(), s, lag) && s.meta.tree == InitialTree(0) && s.meta.nodes == ["a", "b"]
    ensures s.history.known == {"a", "b"} && s.issued == {}
  {
    LeadStart(Start(), lag);
    s := LeadHeartbeat(Start(), Start(), "a", lag);
    s := LeadHeartbeat(Start(), s, "b", lag);
  }

  lemma CompletedOnTwo(lag: Time) returns (s: System)
    ensures LeadsTo(Start(), s, lag) && Reached(s, lag) && s.meta.nodes == ["a", "b"] && s.history.known == {"a", "b"}
    ensures s.issued == {"1"} && IsFileAt(s.meta.tree, ["x"]) && s.meta.tree.Keys == {[], ["x"]}
    ensures var a := s.meta.tree[["x"]];
            a.status == COMPLETE && a.fileID == "1" && a.replicas == [Replica("a", DataPath("1"))]
    ensures Sights(s.meta) <= s.history.seen
  {
    ComponentsName("x");
    s := TwoNodes(lag);
    s := LeadCreate(Start(), s, "x", "a", "1", lag);
    s := LeadStatus(Start(), s, CompleteFile("x"), lag);
  }

  /** A file's status is set; setting it to recovering marks what has been seen at its path. */
  lemma LeadStatus(s0: System, s: System, c: Command, lag: Time) returns (s': System)
    requires LeadsTo(s0, s, lag) && (c.CompleteFile? || (c.UpdateStatus? && c.newStatus == RECOVERING))
    requires IsFileAt(s.meta.tree, Components(c.path))
    ensures LeadsTo(s0, s', lag) && s' == s.(meta := s'.meta, history := s'.history)
    ensures var t, p := s.meta.tree, Components(c.path);
            var status := if c.CompleteFile? then COMPLETE else RECOVERING;
            s'.meta == s.meta.(tree := t[p := t[p].(status := status, modTime := 0)])
    ensures s'.history.known == s.history.known && Sights(s'.meta) <= s'.history.seen
    ensures c.UpdateStatus? ==> forall x | x in s.history.seen && x.path == Components(c.path) :: x in s'.history.marked
  {
    s' := Next(s, Commit(c, 0), lag);
    Extend(s0, s, Commit(c, 0), lag);
  }

  /** The repair of such a file has begun. */
  lemma RepairBegun(lag: Time) returns (s: System, x: Sight)
    ensures LeadsTo(Start(), s, lag) && Reached(s, lag) && s.history.known == {"a", "b"} && s.issued == {"1"}
    ensures x in s.history.marked && OnOneOfTwo(x)
    ensures s.meta.tree.Keys == {[], ["x"]} && IsFileAt(s.meta.tree, ["x"])
  {
    var s1 := CompletedOnTwo(lag);
    var nodes := set a | a in s1.meta.nodes;
    assert nodes == {"a", "b"};
    x := Sight(["x"], s1.meta.tree[["x"]], nodes);
    assert x in Sights(s1.meta);
    ComponentsName("x");
    s := LeadStatus(Start(), s1, UpdateStatus("x", RECOVERING), lag);
  }

  /** The swap for it with a second copy on b. */
  lemma TwoCopies(x: Sight)
    requires OnOneOfTwo(x)
    ensures SwapFor(x, UpdateReplicas("x", [Replica("a", DataPath("1")), Replica("b", DataPath("1"))]))
  {
    ComponentsName("x");
    var rs, b := x.attrs.replicas, Replica("b", DataPath("1"));
    LiveReplicasAre(rs, x.alive);
    var targets: seq<Addr> := ["b"];
    assert targets[..0] == [] && Copied(targets[..0], {"b"}, "1") == [];
    assert Copied(targets, {"b"}, "1") == [b];
    assert TargetsFor(targets, rs, x.alive, 1);
    assert rs + [b] == [Replica("a", DataPath("1")), b];
    assert SwapBy(x.attrs, x.alive, rs + [b], 2, targets, {"b"});
  }

  /** Stale swaps after such runs exist: x is renamed during its repair and created anew. */
  lemma StaleSwapsHappen(lag: Time) returns (s: System, c: Command)
    requires lag < SAFETY_WINDOW
    ensures Reached(s, lag) && Enabled(s, Commit(c, 0), lag)
    ensures HandlerIssued(s.history, c) && Stale(s.history, s.meta.tree, c) && !Overwrites(s.meta.tree, c)
  {
    var s1, x := RepairBegun(lag);
    var s2 := RenamedAway(s1, lag);
    ComponentsName("x");
    s := LeadCreate(Start(), s2, "x", "b", "2", lag);
    c := UpdateReplicas("x", [Replica("a", DataPath("1")), Replica("b", DataPath("1"))]);
    TwoCopies(x);
    assert x in s.history.marked && SwapFor(x, c) && x.attrs.fileID != s.meta.tree[["x"]].fileID;
  }

  lemma RenamedAway(s: System, lag: Time) returns (s': System)
    requires lag < SAFETY_WINDOW && LeadsTo(Start(), s, lag) && Reached(s, lag)
    requires s.meta.tree.Keys == {[], ["x"]} && IsFileAt(s.meta.tree, ["x"])
    ensures LeadsTo(Start(), s', lag) && IsDirAt(s'.meta.tree, []) && ["x"] !in s'.meta.tree
    ensures s'.issued == s.issued && s.history.marked <= s'.history.marked && s.history.known <= s'.history.known
  {
    ReachedIsSound(s, lag);
    RenameFrees(s.meta.tree);
    s' := LeadPlain(Start(), s, Rename("x", "y"), lag);
  }

  lemma RenameFrees(t: Tree)
    requires WellFormed(t) && t.Keys == {[], ["x"]} && IsFileAt(t, ["x"])
    ensures var t' := ApplyTree(t, Rename("x", "y"), 0).0; IsDirAt(t', []) && ["x"] !in t'
  {
    ComponentsName("x");
    ComponentsName("y");
    assert Parent(["y"]) == [];
    RenameAcceptedIff(t, ["x"], ["y"], 0);
    RenameLeavesNothing(t, ["x"], ["y"], 0, ["x"]);
    ApplyKeepsTree(t, Rename("x", "y"), 0);
  }

  /** A file created after the collection, stamped by a clock that lags by the window, is lost. */
  lemma WindowIsTight(lag: Time)
    requires lag >= SAFETY_WINDOW
    ensures exists states, steps, i: nat ::
              Run(states, steps, lag) && HandlerRun(states, steps) && i < |steps| &&
              LosesLive(states[i], steps[i], states[i + 1])
  {
    var s0 := Start();
    LeadStart(s0, lag);
    var s1 := LeadHeartbeat(s0, s0, "a", lag);
    var s2 := LeadCycle(s0, s1, lag);
    var s3 := LeadCreate(s0, s2, "f", "a", "1", lag);
    var s4 := LeadUpload(s0, s3, "a", "1", -SAFETY_WINDOW, lag);
    assert FileIds(InitialTree(0), []) == {};
    OrphanOfId("1", -SAFETY_WINDOW, {}, 0);
    var s5 := LeadDelete(s0, s4, "a", "1", lag);
    var delete := CollectorDelete(0, "a", DataPath("1"));
    assert IsFileAt(s5.meta.tree, ["f"]) && s5.meta.tree[["f"]].fileID == "1";
    assert FileWithId(s5.meta.tree, "1");
    var states, steps, i: nat :|
      Continues(s0, states, steps, lag) && i < |steps| && states[i] == s5 && steps[i] == delete;
    DiskFrame(s5, delete, lag, "a", DataPath("1"));
    assert Run(states, steps, lag) && states[i + 1] == Next(s5, delete, lag);
    assert LosesLive(states[i], steps[i], states[i + 1]);
  }

  /** The exact bound on clock lag under which the collector is safe in all runs of the handlers' commands. */
  lemma CollectorSafeIff(lag: Time)
    ensures lag < SAFETY_WINDOW <==>
            forall states, steps, i: nat | Run(states, steps, lag) && HandlerRun(states, steps) && i < |steps| ::
              !LosesLive(states[i], steps[i], states[i + 1])
  {
    if lag < SAFETY_WINDOW {
      forall states, steps, i: nat | Run(states, steps, lag) && HandlerRun(states, steps) && i < |steps|
        ensures !LosesLive(states[i], steps[i], states[i + 1])
      {
        CollectorIsSafe(states, steps, lag, i);
      }
    } else {
      WindowIsTight(lag);
    }
  }
}
