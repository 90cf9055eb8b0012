/** Re-replication: repairing one file (repairFile) and the loop over batches (runReplication). */
module Replicator {
  import opened Paths
  import opened Subtrees
  import opened Metadata
  import opened Invariants
  import opened RepairLists
  import opened ReplicaLists
  import opened MetadataServers
  import opened RepairScan
  import opened DataNodes
  import opened Clusters
  import opened ReplicaCopies

  method SelectTargetNodes(holders: seq<Replica>, alive: set<Addr>, count: int) returns (targets: seq<Addr>)
    ensures TargetsFor(targets, holders, alive, count)
  {
    targets := [];
    if count <= 0 || alive == {} {
      return;
    }
    var hasReplica := set r | r in holders :: r.addr;
    var todo := alive;
    while todo != {}
      invariant todo <= alive
      invariant Distinct(targets) && |targets| < count
      invariant forall a | a in targets :: a in alive - todo && a !in hasReplica
      invariant forall a | a in alive - todo && a !in hasReplica :: a in targets
    {
      var a :| a in todo;
      todo := todo - {a};
      if a !in hasReplica {
        assert forall b | b in targets :: b in targets + [a];
        targets := targets + [a];
        if |targets| >= count {
          return;
        }
      }
    }
  }

  /** No live node is left without a replica, or no replica is missing. */
  predicate NoTargets(holders: seq<Replica>, alive: set<Addr>, count: int) {
    count <= 0 || forall a | a in alive :: exists r | r in holders :: r.addr == a
  }

  /**
   How the surroundings behave: which Raft rounds commit, which nodes cannot be reached, how many
   chunks each target can pull before its connection breaks, what clocks read.
   */
  datatype Luck = Luck(
    toRecovering: bool, swapList: bool, toComplete: bool, down: set<Addr>, turns: Addr -> nat, now: Time)

  /** What one repair does to the file's attributes; copies are the targets whose copy succeeded. */
  function Repaired(a: Attrs, task: RepairTask, targets: seq<Addr>, copies: set<Addr>, luck: Luck): Attrs {
    var back := if luck.toComplete then COMPLETE else RECOVERING;
    if !luck.toRecovering then a
    else if task.replicas == [] || targets == [] then a.(status := back)
    else if !luck.swapList then a.(status := RECOVERING)
    else a.(status := back, replicas := task.replicas + Copied(targets, copies, task.fileID))
  }

  /** The targets that can pull the file. */
  ghost function Pullers(nodes: Nodes, task: RepairTask, targets: seq<Addr>, luck: Luck): set<Addr> {
    if luck.toRecovering && task.replicas != [] then Connected(nodes, task.replicas[0], targets, luck.down) else {}
  }

  /** What one repair does to the stored bytes. */
  ghost function RepairedDisks(d: Disks, task: RepairTask, targets: seq<Addr>, up: set<Addr>, luck: Luck): Disks {
    if task.replicas == [] then d
    else Pulled(d, BytesOn(d, task.replicas[0]), DataPath(task.fileID), task.size, targets, up, luck.turns)
  }

  ghost function RepairedCopies(d: Disks, task: RepairTask, up: set<Addr>, luck: Luck): set<Addr> {
    if task.replicas == [] then {} else Finished(BytesOn(d, task.replicas[0]), task.size, up, luck.turns)
  }

  /** Only the attributes at p differ, and those are a but for the modification time. */
  ghost predicate ChangedTo(t: Tree, t': Tree, p: Path, a: Attrs) {
    && p in t && p in t' && t' == t[p := t'[p]]
    && t'[p].(modTime := 0) == a.(modTime := 0)
  }

  lemma ThenStatus(t: Tree, t': Tree, t'': Tree, p: Path, a: Attrs, status: string)
    requires ChangedTo(t, t', p, a) && ChangedTo(t', t'', p, t'[p].(status := status))
    ensures ChangedTo(t, t'', p, a.(status := status))
  {
    assert t''[p].(modTime := 0) == t'[p].(modTime := 0).(status := status);
  }

  lemma ThenReplicas(t: Tree, t': Tree, t'': Tree, p: Path, a: Attrs, rs: seq<Replica>)
    requires ChangedTo(t, t', p, a) && ChangedTo(t', t'', p, t'[p].(replicas := rs))
    ensures ChangedTo(t, t'', p, a.(replicas := rs))
  {
    assert t''[p].(modTime := 0) == t'[p].(modTime := 0).(replicas := rs);
  }

  /** A Raft round either applies the command or fails without a trace. */
  method SubmitStatus(mds: MetadataServer, path: string, status: string, now: Time, commits: bool) returns (ok: bool)
    requires mds.Valid() && IsFileAt(mds.State().tree, Components(path)) && status in {COMPLETE, RECOVERING}
    modifies mds.repr
    ensures mds.Valid() && ok == commits
    ensures !ok ==> mds.State() == old(mds.State())
    ensures ok ==> var p, t := Components(path), old(mds.State()).tree;
              ChangedTo(t, mds.State().tree, p, t[p].(status := status))
  {
    if !commits {
      return false;
    }
    var outcome := mds.ApplyUpdateStatus(path, status, now);
    return outcome == Ok;
  }

  method SubmitReplicas(mds: MetadataServer, path: string, rs: seq<Replica>, now: Time, commits: bool)
    returns (ok: bool)
    requires mds.Valid() && IsFileAt(mds.State().tree, Components(path)) && rs != []
    modifies mds.repr
    ensures mds.Valid() && ok == commits
    ensures !ok ==> mds.State() == old(mds.State())
    ensures ok ==> var p, t := Components(path), old(mds.State()).tree;
              ChangedTo(t, mds.State().tree, p, t[p].(replicas := rs))
  {
    if !commits {
      return false;
    }
    var outcome := mds.ApplyUpdateReplicas(path, rs, now);
    return outcome == Ok;
  }

  /**
   One repair of the file at p, from tree t and disks d: only what belongs to this file changes, as
   specified for the targets, and an error is reported unless every round commits and a copy is made.
   */
  ghost predicate RepairDone(t: Tree, t': Tree, p: Path, a: Attrs, d: Disks, d': Disks, task: RepairTask,
                             targets: seq<Addr>, up: set<Addr>, luck: Luck, err: bool)
  {
    var copies := RepairedCopies(d, task, up, luck);
    && ChangedTo(t, t', p, Repaired(a, task, targets, copies, luck))
    && d' == RepairedDisks(d, task, targets, up, luck)
    && (err <==> !(luck.toRecovering && luck.swapList && luck.toComplete && copies != {}))
  }

  /**
   Repairs one file, with no rename or delete beside it. A complete file is complete again exactly
   when the rounds the repair gets to commit.
   */
  method RepairFile(
    mds: MetadataServer, nodes: Nodes, alive: set<Addr>, task: RepairTask, replicaCount: int, luck: Luck)
    returns (err: bool, ghost targets: seq<Addr>)
    requires mds.Valid() && IsFileAt(mds.State().tree, Components(task.path)) && Separate(nodes)
    modifies mds.repr, nodes.Values
    ensures mds.Valid()
    ensures TargetsFor(targets, task.replicas, alive, replicaCount - |task.replicas|)
    ensures var p, t := Components(task.path), old(mds.State()).tree;
            RepairDone(t, mds.State().tree, p, t[p], old(DisksOf(nodes)), DisksOf(nodes), task, targets,
                       Pullers(nodes, task, targets, luck), luck, err)
    ensures var p := Components(task.path);
            old(mds.State().tree[p].status) == COMPLETE ==>
              p in mds.State().tree &&
              (mds.State().tree[p].status == COMPLETE <==>
                 || !luck.toRecovering
                 || (luck.toComplete && (luck.swapList || task.replicas == [] || |task.replicas| >= replicaCount ||
                                         forall a | a in alive :: exists r | r in task.replicas :: r.addr == a)))
  {
    ghost var p, t, d := Components(task.path), mds.State().tree, DisksOf(nodes);
    ghost var a;
    err, targets, a := MarkAndRepair(mds, nodes, alive, task, replicaCount, luck);
    EndsComplete(t, mds.State().tree, p, d, DisksOf(nodes), task, targets, Pullers(nodes, task, targets, luck), alive,
                 replicaCount - |task.replicas|, luck, err);
  }

  /** Step 1, and the rest if it commits; a is what the rest starts from. */
  method MarkAndRepair(
    mds: MetadataServer, nodes: Nodes, alive: set<Addr>, task: RepairTask, replicaCount: int, luck: Luck)
    returns (err: bool, ghost targets: seq<Addr>, ghost a: Attrs)
    requires mds.Valid() && IsFileAt(mds.State().tree, Components(task.path)) && Separate(nodes)
    modifies mds.repr, nodes.Values
    ensures mds.Valid()
    ensures TargetsFor(targets, task.replicas, alive, replicaCount - |task.replicas|)
    ensures var p, t := Components(task.path), old(mds.State()).tree;
            && a == (if luck.toRecovering then t[p].(status := RECOVERING) else t[p])
            && RepairDone(t, mds.State().tree, p, a, old(DisksOf(nodes)), DisksOf(nodes), task, targets,
                          Pullers(nodes, task, targets, luck), luck, err)
  {
    ghost var p, t, d := Components(task.path), mds.State().tree, DisksOf(nodes);
    var ok := StatusBeside(mds, nodes, task.path, RECOVERING, luck.now, luck.toRecovering);
    if ok {
      a := t[p].(status := RECOVERING);
      err, targets := RepairRecovering(mds, nodes, alive, task, replicaCount, luck, t, a);
    } else {
      err, a := true, t[p];
      targets := Refused(d, alive, task, replicaCount, luck, t, p);
    }
  }

  /** The marking failed: nothing has happened, for any admissible targets. */
  lemma Refused(d: Disks, alive: set<Addr>, task: RepairTask, replicaCount: int, luck: Luck, t: Tree, p: Path)
    returns (targets: seq<Addr>)
    requires p in t && !luck.toRecovering
    ensures TargetsFor(targets, task.replicas, alive, replicaCount - |task.replicas|)
    ensures RepairDone(t, t, p, t[p], d, d, task, targets, {}, luck, true)
  {
    targets := SomeTargets(task.replicas, alive, replicaCount - |task.replicas|);
    NotStarted(t, p, d, task, targets, luck);
  }

  lemma SomeTargets(holders: seq<Replica>, alive: set<Addr>, count: int) returns (targets: seq<Addr>)
    ensures TargetsFor(targets, holders, alive, count)
  {
    targets := [];
    var free := alive - AddrSet(holders);
    while free != {} && |targets| < count
      invariant Distinct(targets) && |targets| <= (if count < 0 then 0 else count)
      invariant free <= alive - AddrSet(holders)
      invariant forall a :: a in alive - AddrSet(holders) <==> a in free || a in targets
      invariant forall a | a in targets :: a !in free
      decreases free
    {
      var a :| a in free;
      var longer := targets + [a];
      assert forall b :: b in longer <==> b in targets || b == a;
      targets, free := longer, free - {a};
    }
  }

  /** A status round does not touch the nodes. */
  method StatusBeside(mds: MetadataServer, nodes: Nodes, path: string, status: string, now: Time, commits: bool)
    returns (ok: bool)
    requires mds.Valid() && IsFileAt(mds.State().tree, Components(path)) && status in {COMPLETE, RECOVERING}
    modifies mds.repr
    ensures mds.Valid() && ok == commits && DisksOf(nodes) == old(DisksOf(nodes))
    ensures !ok ==> mds.State().tree == old(mds.State()).tree
    ensures ok ==> var p, t := Components(path), old(mds.State()).tree;
              ChangedTo(t, mds.State().tree, p, t[p].(status := status))
  {
    ghost var d := DisksOf(nodes);
    ok := SubmitStatus(mds, path, status, now, commits);
    SameMap(DisksOf(nodes), d);
  }

  /** What a repair needs to commit, in terms known before it starts. */
  predicate CompletesAgain(holders: seq<Replica>, alive: set<Addr>, missing: int, luck: Luck) {
    !luck.toRecovering || (luck.toComplete && (luck.swapList || holders == [] || NoTargets(holders, alive, missing)))
  }

  lemma EndsComplete(t: Tree, t': Tree, p: Path, d: Disks, d': Disks, task: RepairTask, targets: seq<Addr>,
                     up: set<Addr>, alive: set<Addr>, missing: int, luck: Luck, err: bool)
    requires p in t && TargetsFor(targets, task.replicas, alive, missing)
    requires || RepairDone(t, t', p, t[p], d, d', task, targets, up, luck, err)
             || (luck.toRecovering &&
                 RepairDone(t, t', p, t[p].(status := RECOVERING), d, d', task, targets, up, luck, err))
    ensures RepairDone(t, t', p, t[p], d, d', task, targets, up, luck, err)
    ensures t[p].status == COMPLETE ==>
              (t'[p].status == COMPLETE <==> CompletesAgain(task.replicas, alive, missing, luck))
  {
    NoTargetsIff(targets, task.replicas, alive, missing);
    var copies := RepairedCopies(d, task, up, luck);
    assert luck.toRecovering ==>
        Repaired(t[p].(status := RECOVERING), task, targets, copies, luck) ==
            Repaired(t[p], task, targets, copies, luck);
    assert t'[p].(modTime := 0).status == Repaired(t[p], task, targets, copies, luck).(modTime := 0).status;
  }

  lemma NotStarted(t: Tree, p: Path, d: Disks, task: RepairTask, targets: seq<Addr>, luck: Luck)
    requires p in t && !luck.toRecovering
    ensures RepairDone(t, t, p, t[p], d, d, task, targets, {}, luck, true)
  {
    PulledByNone(d, task, targets, luck);
    assert t == t[p := t[p]];
  }

  lemma {:induction false} PulledByNone(d: Disks, task: RepairTask, targets: seq<Addr>, luck: Luck)
    ensures RepairedDisks(d, task, targets, {}, luck) == d
    decreases targets
  {
    if targets != [] && task.replicas != [] {
      PulledByNone(d, task, targets[..|targets| - 1], luck);
    }
  }

  lemma NoTargetsIff(targets: seq<Addr>, holders: seq<Replica>, alive: set<Addr>, count: int)
    requires TargetsFor(targets, holders, alive, count)
    ensures targets == [] <==> NoTargets(holders, alive, count)
  {
    if targets != [] {
      assert targets[0] in targets;
    } else if count > 0 {
      forall a | a in alive
        ensures exists r | r in holders :: r.addr == a
      {
        assert a in AddrSet(holders);
      }
    }
  }

  /**
   Steps 2 to 7, after the file has been marked as recovering. The code looks for a source before
   it selects targets; selecting has no effect, so the two failures are one here.
   */
  method RepairRecovering(
    mds: MetadataServer, nodes: Nodes, alive: set<Addr>, task: RepairTask, replicaCount: int, luck: Luck,
    ghost t: Tree, ghost a: Attrs)
    returns (err: bool, ghost targets: seq<Addr>)
    requires mds.Valid() && ChangedTo(t, mds.State().tree, Components(task.path), a) && Separate(nodes)
    requires !a.isDir && a.status == RECOVERING && luck.toRecovering
    modifies mds.repr, nodes.Values
    ensures mds.Valid()
    ensures TargetsFor(targets, task.replicas, alive, replicaCount - |task.replicas|)
    ensures RepairDone(t, mds.State().tree, Components(task.path), a, old(DisksOf(nodes)), DisksOf(nodes), task,
                       targets, Pullers(nodes, task, targets, luck), luck, err)
  {
    var chosen := SelectTargetNodes(task.replicas, alive, replicaCount - |task.replicas|);
    targets := chosen;
    if |task.replicas| == 0 || |chosen| == 0 {
      GiveUp(mds, nodes, task, targets, luck, t, a);
      return true, targets;
    }
    err := CopyAndCommit(mds, nodes, task, chosen, luck, t, a);
  }

  /** Nothing to copy from, or nowhere to copy to. */
  method GiveUp(mds: MetadataServer, nodes: Nodes, task: RepairTask, ghost targets: seq<Addr>, luck: Luck,
                ghost t: Tree, ghost a: Attrs)
    requires mds.Valid() && ChangedTo(t, mds.State().tree, Components(task.path), a)
    requires !a.isDir && a.status == RECOVERING && luck.toRecovering && (task.replicas == [] || targets == [])
    modifies mds.repr
    ensures mds.Valid() && DisksOf(nodes) == old(DisksOf(nodes))
    ensures RepairDone(t, mds.State().tree, Components(task.path), a, old(DisksOf(nodes)), DisksOf(nodes), task,
                       targets, Pullers(nodes, task, targets, luck), luck, true)
  {
    ghost var d := DisksOf(nodes);
    RollbackStatus(mds, task.path, luck, t, a);
    SameMap(DisksOf(nodes), d);
    assert Pullers(nodes, task, targets, luck) == {};
    PulledByNone(d, task, targets, luck);
  }

  /** Steps 4 to 7. */
  method CopyAndCommit(mds: MetadataServer, nodes: Nodes, task: RepairTask, targets: seq<Addr>, luck: Luck,
                       ghost t: Tree, ghost a: Attrs)
    returns (err: bool)
    requires mds.Valid() && ChangedTo(t, mds.State().tree, Components(task.path), a) && Separate(nodes)
    requires !a.isDir && a.status == RECOVERING && luck.toRecovering && task.replicas != [] && targets != []
    requires forall a | a in targets :: a !in AddrSet(task.replicas)
    modifies mds.repr, nodes.Values
    ensures mds.Valid()
    ensures RepairDone(t, mds.State().tree, Components(task.path), a, old(DisksOf(nodes)), DisksOf(nodes), task,
                       targets, Pullers(nodes, task, targets, luck), luck, err)
  {
    var copies := CopyBeside(mds, nodes, task, targets, luck);
    err := CommitBeside(mds, nodes, task, targets, copies, luck, t, a);
  }

  /** The rounds after the copying do not touch the nodes. */
  method CommitBeside(mds: MetadataServer, nodes: Nodes, task: RepairTask, targets: seq<Addr>, copies: set<Addr>,
                      luck: Luck, ghost t: Tree, ghost a: Attrs)
    returns (err: bool)
    requires mds.Valid() && ChangedTo(t, mds.State().tree, Components(task.path), a)
    requires !a.isDir && a.status == RECOVERING && luck.toRecovering && task.replicas != [] && targets != []
    requires forall x | x in copies :: x in targets
    modifies mds.repr
    ensures mds.Valid() && DisksOf(nodes) == old(DisksOf(nodes))
    ensures ChangedTo(t, mds.State().tree, Components(task.path), Repaired(a, task, targets, copies, luck))
    ensures err <==> !(luck.swapList && luck.toComplete && copies != {})
  {
    ghost var d := DisksOf(nodes);
    err := CommitCopies(mds, task, targets, copies, luck, t, a);
    SameMap(DisksOf(nodes), d);
  }

  /** The copying does not touch the metadata. */
  method CopyBeside(mds: MetadataServer, nodes: Nodes, task: RepairTask, targets: seq<Addr>, luck: Luck)
    returns (copies: set<Addr>)
    requires mds.Valid() && Separate(nodes) && luck.toRecovering && task.replicas != []
    requires forall a | a in targets :: a !in AddrSet(task.replicas)
    modifies nodes.Values
    ensures mds.Valid() && mds.State() == old(mds.State())
    ensures DisksOf(nodes) ==
            RepairedDisks(old(DisksOf(nodes)), task, targets, Pullers(nodes, task, targets, luck), luck)
    ensures copies == RepairedCopies(old(DisksOf(nodes)), task, Pullers(nodes, task, targets, luck), luck)
    ensures forall x | x in copies :: x in targets
  {
    copies := CopyToTargets(nodes, task, targets, luck.down, luck.turns);
  }

  method RollbackStatus(mds: MetadataServer, path: string, luck: Luck, ghost t: Tree, ghost a: Attrs)
    requires mds.Valid() && ChangedTo(t, mds.State().tree, Components(path), a) && !a.isDir
    modifies mds.repr
    ensures mds.Valid()
    ensures ChangedTo(t, mds.State().tree, Components(path),
                      a.(status := if luck.toComplete then COMPLETE else a.status))
  {
    ghost var t1 := mds.State().tree;
    var ok := SubmitStatus(mds, path, COMPLETE, luck.now, luck.toComplete);
    if ok {
      ThenStatus(t, t1, mds.State().tree, Components(path), a, COMPLETE);
    }
  }

  /** Steps 5 to 7: collect the copies that succeeded, swap the list, go back to complete. */
  method CommitCopies(mds: MetadataServer, task: RepairTask, targets: seq<Addr>, copies: set<Addr>, luck: Luck,
                      ghost t: Tree, ghost a: Attrs)
    returns (err: bool)
    requires mds.Valid() && ChangedTo(t, mds.State().tree, Components(task.path), a) && !a.isDir
    requires task.replicas != [] && forall x | x in copies :: x in targets
    modifies mds.repr
    ensures mds.Valid()
    ensures ChangedTo(t, mds.State().tree, Components(task.path),
                      if !luck.swapList then a
                      else a.(replicas := task.replicas + Copied(targets, copies, task.fileID),
                              status := if luck.toComplete then COMPLETE else a.status))
    ensures err <==> !(luck.swapList && luck.toComplete && copies != {})
  {
    ghost var p, t1 := Components(task.path), mds.State().tree;
    var added := CollectCopied(targets, copies, task.fileID);
    NoneAdded(targets, copies, task.fileID);
    var final := task.replicas + added;
    var ok := SubmitReplicas(mds, task.path, final, luck.now, luck.swapList);
    if !ok {
      return true;
    }
    ghost var t2 := mds.State().tree;
    ThenReplicas(t, t1, t2, p, a, final);
    ok := SubmitStatus(mds, task.path, COMPLETE, luck.now, luck.toComplete);
    if ok {
      ThenStatus(t, t2, mds.State().tree, p, a.(replicas := final), COMPLETE);
    }
    err := !ok || |added| == 0;
  }

  lemma NoneAdded(targets: seq<Addr>, copies: set<Addr>, id: FileId)
    requires forall x | x in copies :: x in targets
    ensures Copied(targets, copies, id) == [] <==> copies == {}
  {
    CopiedAre(targets, copies, id);
    if copies != {} {
      var x :| x in copies;
      assert Replica(x, DataPath(id)) in Copied(targets, copies, id);
    } else {
      assert forall r :: r !in Copied(targets, copies, id);
    }
  }

  // ----- what one repair achieves -----

  lemma {:induction false} SetFitsSeq<T>(s: set<T>, xs: seq<T>)
    requires forall x | x in s :: x in xs
    ensures |s| <= |xs|
  {
    if xs == [] {
      assert s == {};
    } else {
      var n := |xs| - 1;
      assert xs == xs[..n] + [xs[n]];
      SetFitsSeq(s - {xs[n]}, xs[..n]);
    }
  }

  lemma {:induction false} AddrSetSize(rs: seq<Replica>)
    ensures |AddrSet(rs)| <= |rs|
  {
    forall a | a in AddrSet(rs)
      ensures a in Addrs(rs)
    {
      var i :| 0 <= i < |rs| && rs[i].addr == a;
      assert Addrs(rs)[i] == a;
    }
    SetFitsSeq(AddrSet(rs), Addrs(rs));
  }

  /** With enough live nodes there are as many targets as copies are missing. */
  lemma EnoughTargets(targets: seq<Addr>, holders: seq<Replica>, alive: set<Addr>, replicaCount: int)
    requires TargetsFor(targets, holders, alive, replicaCount - |holders|)
    requires |holders| < replicaCount <= |alive|
    ensures |targets| == replicaCount - |holders|
  {
    var free := alive - AddrSet(holders);
    AddrSetSize(holders);
    assert |alive| <= |free| + |AddrSet(holders)| by {
      assert alive <= free + AddrSet(holders);
      SetSizes(alive, free, AddrSet(holders));
    }
    if |targets| < replicaCount - |holders| {
      SetFitsSeq(free, targets);
    }
  }

  lemma SetSizes<T>(a: set<T>, b: set<T>, c: set<T>)
    requires a <= b + c
    ensures |a| <= |b| + |c|
  {
    assert |b + c| <= |b| + |c|;
    SubsetSize(a, b + c);
  }

  lemma SubsetSize<T>(a: set<T>, b: set<T>)
    requires a <= b
    ensures |a| <= |b|
  {
    assert b == a + (b - a);
  }

  /**
   The list a repair swaps in: the live replicas first, all addresses alive and distinct, at
   most replicaCount of them, and exactly that many when enough nodes exist and every copy
   succeeds. It is what the run properties take a repair to submit.
   */
  lemma RepairedList(
    t: Tree, p: Path, task: RepairTask, targets: seq<Addr>, copies: set<Addr>, alive: set<Addr>, replicaCount: int)
    requires UnderReplicated(t, p, alive, {}, replicaCount) && task == TaskFor(t, p, alive)
    requires Distinct(Addrs(t[p].replicas))
    requires TargetsFor(targets, task.replicas, alive, replicaCount - |task.replicas|)
    ensures var final := task.replicas + Copied(targets, copies, task.fileID);
            && (forall r | r in t[p].replicas && r.addr in alive :: r in final)
            && (forall r | r in final :: r.addr in alive)
            && Distinct(Addrs(final))
            && |final| <= replicaCount
            && (replicaCount <= |alive| && (forall a | a in targets :: a in copies) ==> |final| == replicaCount)
            && (IsPath(p) && task.replicas != [] && targets != [] ==>
                  SwapFor(Sight(p, t[p], alive), UpdateReplicas(task.path, final)))
  {
    var live, added := task.replicas, Copied(targets, copies, task.fileID);
    LiveReplicasAre(t[p].replicas, alive);
    LiveReplicasDistinct(t[p].replicas, alive);
    CopiedAre(targets, copies, task.fileID);
    CopiedDistinct(targets, copies, task.fileID);
    DistinctJoin(live, added);
    if replicaCount <= |alive| && forall a | a in targets :: a in copies {
      EnoughTargets(targets, live, alive, replicaCount);
    }
    if IsPath(p) && live != [] && targets != [] {
      ComponentsPathString(p);
      assert SwapBy(t[p], alive, live + added, replicaCount, targets, copies);
    }
  }
}
