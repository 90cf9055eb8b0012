/** The replication cycle (runReplication): scan a batch, repair it, scan again. */
module ReplicationLoop {
  import opened Paths
  import opened Subtrees
  import opened Metadata
  import opened RepairLists
  import opened MetadataServers
  import opened RepairScan
  import opened Clusters
  import opened ReplicaCopies
  import opened Replicator
  import opened RepairProgress

  const BATCH_SIZE := 16

  // ----- one batch -----

  ghost function Prefix(found: seq<Path>, i: nat): set<Path>
    requires i <= |found|
  {
    set p | p in found[..i]
  }

  /** After i repairs of a batch: later files untouched, and under good conditions the first i done. */
  ghost predicate BatchState(t0: Tree, d0: Disks, t: Tree, d: Disks, found: seq<Path>, i: nat, alive: set<Addr>,
                             replicaCount: int, good: bool)
    requires i <= |found|
  {
    && Progress(t0, d0, t, d, alive, replicaCount)
    && (forall j | i <= j < |found| :: found[j] in t0 && found[j] in t && t[found[j]] == t0[found[j]])
    && (good ==>
          && Healthy(t, d, alive, replicaCount) && Good(t0, t, alive, replicaCount)
          && ToRepair(t, alive, replicaCount) == ToRepair(t0, alive, replicaCount) - Prefix(found, i))
  }

  lemma BatchStep(t0: Tree, d0: Disks, t: Tree, d: Disks, t': Tree, d': Disks, found: seq<Path>, i: nat,
                  targets: seq<Addr>, up: set<Addr>, alive: set<Addr>, replicaCount: int, luck: Luck,
                  err: bool, good: bool)
    requires i < |found| && forall j, k | 0 <= j < k < |found| :: found[j] != found[k]
    requires BatchState(t0, d0, t, d, found, i, alive, replicaCount, good)
    requires OneRepair(t, d, t', d', found[i], targets, up, alive, replicaCount, luck, err)
    requires good ==> AllSucceeds(luck, t, alive) && forall a | a in targets :: a in up
    ensures BatchState(t0, d0, t', d', found, i + 1, alive, replicaCount, good)
  {
    var p := found[i];
    RepairIsProgress(t, d, t', d', p, targets, up, alive, replicaCount, luck, err);
    ProgressTwice(t0, d0, t, d, t', d', alive, replicaCount);
    RepairLocal(t, d, t', d', p, targets, up, alive, replicaCount, luck, err);
    assert found[..i + 1] == found[..i] + [p];
    assert Prefix(found, i + 1) == Prefix(found, i) + {p};
    if good {
      RepairFixes(t, d, t', d', p, targets, up, alive, replicaCount, luck, err);
      GoodTwice(t0, t, t', alive, replicaCount);
    }
  }

  /** Live nodes that can be reached pull from a live replica. */
  lemma TargetsConnect(nodes: Nodes, task: RepairTask, targets: seq<Addr>, alive: set<Addr>, luck: Luck)
    requires luck.toRecovering && alive <= nodes.Keys && alive !! luck.down
    requires (forall a | a in targets :: a in alive) && (task.replicas != [] ==> task.replicas[0].addr in alive)
    ensures task.replicas != [] ==> forall a | a in targets :: a in Pullers(nodes, task, targets, luck)
  {
  }

  /** Everything repairs may rely on: health, and luck that lasts for every file there is. */
  ghost predicate GoodConditions(t: Tree, d: Disks, alive: set<Addr>, replicaCount: int, luck: nat -> Luck) {
    Healthy(t, d, alive, replicaCount) && forall i :: AllSucceeds(luck(i), t, alive)
  }

  /** One scanned file, still as it was when scanned. */
  method RepairNext(
    mds: MetadataServer, nodes: Nodes, task: RepairTask, ghost p: Path, alive: set<Addr>, replicaCount: int, luck: Luck)
    returns (err: bool, ghost targets: seq<Addr>)
    requires mds.Valid() && Separate(nodes) && Components(task.path) == p
    requires UnderReplicated(mds.State().tree, p, alive, {}, replicaCount)
    requires task == TaskFor(mds.State().tree, p, alive)
    modifies mds.repr, nodes.Values
    ensures mds.Valid()
    ensures OneRepair(old(mds.State()).tree, old(DisksOf(nodes)), mds.State().tree, DisksOf(nodes), p, targets,
                      Pullers(nodes, task, targets, luck), alive, replicaCount, luck, err)
    ensures Healthy(old(mds.State()).tree, old(DisksOf(nodes)), alive, replicaCount) &&
            AllSucceeds(luck, old(mds.State()).tree, alive) ==>
              forall a | a in targets :: a in Pullers(nodes, task, targets, luck)
  {
    ghost var t, d := mds.State().tree, DisksOf(nodes);
    err, targets := RepairFile(mds, nodes, alive, task, replicaCount, luck);
    if Healthy(t, d, alive, replicaCount) && AllSucceeds(luck, t, alive) {
      assert Repairable(t, d, alive, replicaCount, p);
      LiveReplicasAre(t[p].replicas, alive);
      assert task.replicas[0] in task.replicas;
      TargetsConnect(nodes, task, targets, alive, luck);
    }
  }

  /** A scanned batch: the tasks, and the paths they were made for. */
  ghost predicate Scheduled(t0: Tree, tasks: seq<RepairTask>, found: seq<Path>, alive: set<Addr>, replicaCount: int) {
    && TasksFor(t0, tasks, found, alive, {}, replicaCount)
    && forall i | 0 <= i < |tasks| :: Components(tasks[i].path) == found[i]
  }

  lemma BatchStart(t0: Tree, d0: Disks, tasks: seq<RepairTask>, found: seq<Path>, alive: set<Addr>, replicaCount: int,
                   luck: nat -> Luck, good: bool)
    requires Scheduled(t0, tasks, found, alive, replicaCount)
    requires good ==> GoodConditions(t0, d0, alive, replicaCount, luck)
    ensures BatchState(t0, d0, t0, d0, found, 0, alive, replicaCount, good)
  {
    NoProgress(t0, d0, alive, replicaCount);
    assert Prefix(found, 0) == {};
    forall j | 0 <= j < |found|
      ensures found[j] in t0
    {
      assert UnderReplicated(t0, found[j], alive, {}, replicaCount);
    }
  }

  /** One turn of the batch. */
  method BatchTurn(mds: MetadataServer, nodes: Nodes, ghost t0: Tree, ghost d0: Disks, tasks: seq<RepairTask>,
                   ghost found: seq<Path>, i: nat, alive: set<Addr>, replicaCount: int, luck: Luck, ghost good: bool)
    requires mds.Valid() && Separate(nodes) && i < |tasks| && Scheduled(t0, tasks, found, alive, replicaCount)
    requires BatchState(t0, d0, mds.State().tree, DisksOf(nodes), found, i, alive, replicaCount, good)
    requires good ==> AllSucceeds(luck, t0, alive)
    modifies mds.repr, nodes.Values
    ensures mds.Valid()
    ensures BatchState(t0, d0, mds.State().tree, DisksOf(nodes), found, i + 1, alive, replicaCount, good)
  {
    ghost var t, d := mds.State().tree, DisksOf(nodes);
    if good {
      StillSucceeds(luck, t0, t, alive, replicaCount);
    }
    assert UnderReplicated(t0, found[i], alive, {}, replicaCount) && tasks[i] == TaskFor(t0, found[i], alive);
    var err, targets := RepairNext(mds, nodes, tasks[i], found[i], alive, replicaCount, luck);
    BatchStep(t0, d0, t, d, mds.State().tree, DisksOf(nodes), found, i, targets,
              Pullers(nodes, tasks[i], targets, luck), alive, replicaCount, luck, err, good);
  }

  /** Repairs a scanned batch, one file after the other. */
  method RepairBatch(mds: MetadataServer, nodes: Nodes, tasks: seq<RepairTask>, ghost found: seq<Path>,
                     alive: set<Addr>, replicaCount: int, luck: nat -> Luck, first: nat, ghost good: bool)
    requires mds.Valid() && Separate(nodes) && Scheduled(mds.State().tree, tasks, found, alive, replicaCount)
    requires good ==> GoodConditions(mds.State().tree, DisksOf(nodes), alive, replicaCount, luck)
    modifies mds.repr, nodes.Values
    ensures mds.Valid()
    ensures BatchState(old(mds.State()).tree, old(DisksOf(nodes)), mds.State().tree, DisksOf(nodes), found, |found|,
                       alive, replicaCount, good)
  {
    ghost var t0, d0 := mds.State().tree, DisksOf(nodes);
    var repairing: set<FileId> := {};
    BatchStart(t0, d0, tasks, found, alive, replicaCount, luck, good);
    for i := 0 to |tasks|
      invariant mds.Valid() && repairing == {}
      invariant BatchState(t0, d0, mds.State().tree, DisksOf(nodes), found, i, alive, replicaCount, good)
    {
      if tasks[i].fileID !in repairing {
        repairing := repairing + {tasks[i].fileID};
        BatchTurn(mds, nodes, t0, d0, tasks, found, i, alive, replicaCount, luck(first + i), good);
        repairing := repairing - {tasks[i].fileID};
      }
    }
  }

  // ----- rounds -----

  /** What a round that repairs something achieves when nothing goes wrong. */
  ghost predicate GoodRound(t: Tree, t': Tree, alive: set<Addr>, replicaCount: int) {
    Good(t, t', alive, replicaCount) && ToRepair(t', alive, replicaCount) < ToRepair(t, alive, replicaCount)
  }

  lemma {:induction false} PrefixSize(found: seq<Path>, n: nat)
    requires n <= |found| && forall i, j | 0 <= i < j < |found| :: found[i] != found[j]
    ensures |Prefix(found, n)| == n
  {
    if n > 0 {
      PrefixSize(found, n - 1);
      assert found[..n] == found[..n - 1] + [found[n - 1]];
      assert Prefix(found, n) == Prefix(found, n - 1) + {found[n - 1]};
    }
  }

  /** The found files are among those to repair; fewer than a batch are all of them. */
  lemma FoundSize(t: Tree, tasks: seq<RepairTask>, found: seq<Path>, alive: set<Addr>, replicaCount: int)
    requires Batch(t, tasks, found, alive, replicaCount)
    ensures Prefix(found, |found|) <= ToRepair(t, alive, replicaCount) && |Prefix(found, |found|)| == |tasks|
    ensures |tasks| == Least(BATCH_SIZE, |ToRepair(t, alive, replicaCount)|)
  {
    var all, some := ToRepair(t, alive, replicaCount), Prefix(found, |found|);
    assert found[..|found|] == found;
    PrefixSize(found, |found|);
    SubsetSize(some, all);
    if |tasks| < BATCH_SIZE {
      assert some == all;
    }
  }

  function Least(a: nat, b: nat): nat {
    if a < b then a else b
  }

  lemma RoundShrinks(t0: Tree, d0: Disks, t: Tree, d: Disks, found: seq<Path>, alive: set<Addr>, replicaCount: int)
    requires found != [] && BatchState(t0, d0, t, d, found, |found|, alive, replicaCount, true)
    requires Prefix(found, |found|) <= ToRepair(t0, alive, replicaCount) && |Prefix(found, |found|)| == |found|
    ensures GoodRound(t0, t, alive, replicaCount)
    ensures |ToRepair(t, alive, replicaCount)| == |ToRepair(t0, alive, replicaCount)| - |found|
  {
    assert found[0] in Prefix(found, |found|) by {
      assert found[..|found|][0] == found[0];
    }
  }

  /** What a round makes of tree and disks when it repairs so many files. */
  ghost predicate RoundDone(t0: Tree, d0: Disks, t: Tree, d: Disks, alive: set<Addr>, replicaCount: int,
                            luck: nat -> Luck, repaired: nat)
  {
    && Progress(t0, d0, t, d, alive, replicaCount)
    && repaired == Least(16, |ToRepair(t0, alive, replicaCount)|)
    && (repaired == 0 ==> t == t0 && d == d0)
    && (GoodConditions(t0, d0, alive, replicaCount, luck) ==>
          && (repaired > 0 ==> GoodRound(t0, t, alive, replicaCount))
          && GoodConditions(t, d, alive, replicaCount, luck)
          && |ToRepair(t, alive, replicaCount)| == |ToRepair(t0, alive, replicaCount)| - repaired)
  }

  /** The result of a scan for a batch: fewer than a batch are all there are. */
  ghost predicate Batch(t: Tree, tasks: seq<RepairTask>, found: seq<Path>, alive: set<Addr>, replicaCount: int) {
    && Scheduled(t, tasks, found, alive, replicaCount) && |tasks| <= BATCH_SIZE
    && (|tasks| < BATCH_SIZE ==> forall p | UnderReplicated(t, p, alive, {}, replicaCount) :: p in found)
  }

  lemma BatchIsRound(t0: Tree, d0: Disks, t: Tree, d: Disks, tasks: seq<RepairTask>, found: seq<Path>, alive: set<Addr>,
                     replicaCount: int, luck: nat -> Luck)
    requires Batch(t0, tasks, found, alive, replicaCount)
    requires BatchState(t0, d0, t, d, found, |found|, alive, replicaCount,
                        GoodConditions(t0, d0, alive, replicaCount, luck))
    requires tasks == [] ==> t == t0 && d == d0
    ensures RoundDone(t0, d0, t, d, alive, replicaCount, luck, |tasks|)
  {
    FoundSize(t0, tasks, found, alive, replicaCount);
    if GoodConditions(t0, d0, alive, replicaCount, luck) {
      StillGood(luck, t0, t, alive, replicaCount);
      if found != [] {
        RoundShrinks(t0, d0, t, d, found, alive, replicaCount);
      }
    }
  }

  lemma NothingFound(t: Tree, d: Disks, alive: set<Addr>, replicaCount: int, luck: nat -> Luck)
    requires Batch(t, [], [], alive, replicaCount)
    ensures RoundDone(t, d, t, d, alive, replicaCount, luck, 0)
  {
    BatchStart(t, d, [], [], alive, replicaCount, luck, GoodConditions(t, d, alive, replicaCount, luck));
    BatchIsRound(t, d, t, d, [], [], alive, replicaCount, luck);
  }

  /** One round: scan for a batch and repair it; no batch means nothing is left to repair. */
  method Round(mds: MetadataServer, nodes: Nodes, replicaCount: int, luck: nat -> Luck, first: nat)
    returns (repaired: nat)
    requires mds.Valid() && Separate(nodes)
    modifies mds.repr, nodes.Values
    ensures mds.Valid()
    ensures RoundDone(old(mds.State()).tree, old(DisksOf(nodes)), mds.State().tree, DisksOf(nodes),
                      AliveSet(mds.dataNodes), replicaCount, luck, repaired)
  {
    ghost var t := mds.State().tree;
    var tasks, alive, found := FindTasks(mds, {}, replicaCount, BATCH_SIZE);
    assert Batch(t, tasks, found, alive, replicaCount);
    if |tasks| == 0 {
      NothingFound(t, DisksOf(nodes), alive, replicaCount, luck);
      return 0;
    }
    RepairFound(mds, nodes, tasks, found, alive, replicaCount, luck, first);
    return |tasks|;
  }

  method RepairFound(mds: MetadataServer, nodes: Nodes, tasks: seq<RepairTask>, ghost found: seq<Path>,
                     alive: set<Addr>, replicaCount: int, luck: nat -> Luck, first: nat)
    requires mds.Valid() && Separate(nodes) && tasks != []
    requires Batch(mds.State().tree, tasks, found, alive, replicaCount)
    modifies mds.repr, nodes.Values
    ensures mds.Valid()
    ensures RoundDone(old(mds.State()).tree, old(DisksOf(nodes)), mds.State().tree, DisksOf(nodes), alive, replicaCount,
                      luck, |tasks|)
  {
    ghost var t, d := mds.State().tree, DisksOf(nodes);
    RepairBatch(mds, nodes, tasks, found, alive, replicaCount, luck, first,
                GoodConditions(t, d, alive, replicaCount, luck));
    BatchIsRound(t, d, mds.State().tree, DisksOf(nodes), tasks, found, alive, replicaCount, luck);
  }

  lemma StillGood(luck: nat -> Luck, t: Tree, t': Tree, alive: set<Addr>, replicaCount: int)
    requires Kept(t, t', alive, replicaCount) && forall i :: AllSucceeds(luck(i), t, alive)
    ensures forall i :: AllSucceeds(luck(i), t', alive)
  {
    forall i
      ensures AllSucceeds(luck(i), t', alive)
    {
      StillSucceeds(luck(i), t, t', alive, replicaCount);
    }
  }

  /** The trees a cycle goes through, the first before it and one more after each round that repairs. */
  ghost predicate Rounds(trees: seq<Tree>, alive: set<Addr>, replicaCount: int, good: bool) {
    && trees != []
    && (forall i | 0 <= i < |trees| - 1 :: ToRepair(trees[i], alive, replicaCount) != {})
    && (good ==> forall i | 0 <= i < |trees| - 1 :: GoodRound(trees[i], trees[i + 1], alive, replicaCount))
  }

  lemma RoundsOnward(trees: seq<Tree>, t: Tree, alive: set<Addr>, replicaCount: int, good: bool)
    requires Rounds(trees, alive, replicaCount, good) && ToRepair(trees[|trees| - 1], alive, replicaCount) != {}
    requires good ==> GoodRound(trees[|trees| - 1], t, alive, replicaCount)
    ensures Rounds(trees + [t], alive, replicaCount, good)
    ensures good ==> |ToRepair(t, alive, replicaCount)| < |ToRepair(trees[|trees| - 1], alive, replicaCount)|
  {
    if good {
      var before, now := ToRepair(trees[|trees| - 1], alive, replicaCount), ToRepair(t, alive, replicaCount);
      var x :| x in before && x !in now;
      SubsetSize(now, before - {x});
    }
  }

  /** A cycle that went through the trees so far, from t0 and d0 to t and d. */
  ghost predicate CycleAt(t0: Tree, d0: Disks, t: Tree, d: Disks, trees: seq<Tree>, alive: set<Addr>, replicaCount: int,
                          luck: nat -> Luck, good: bool)
  {
    && Rounds(trees, alive, replicaCount, good) && trees[0] == t0 && trees[|trees| - 1] == t
    && Progress(t0, d0, t, d, alive, replicaCount)
    && (good ==>
          && GoodConditions(t, d, alive, replicaCount, luck) && Good(t0, t, alive, replicaCount)
          && |trees| - 1 + |ToRepair(t, alive, replicaCount)| <= |ToRepair(t0, alive, replicaCount)|)
  }

  lemma CycleOnward(t0: Tree, d0: Disks, t: Tree, d: Disks, t': Tree, d': Disks, trees: seq<Tree>, alive: set<Addr>,
                    replicaCount: int, luck: nat -> Luck, good: bool)
    requires CycleAt(t0, d0, t, d, trees, alive, replicaCount, luck, good)
    requires Progress(t, d, t', d', alive, replicaCount) && ToRepair(t, alive, replicaCount) != {}
    requires good ==> GoodRound(t, t', alive, replicaCount) && GoodConditions(t', d', alive, replicaCount, luck)
    ensures CycleAt(t0, d0, t', d', trees + [t'], alive, replicaCount, luck, good)
  {
    ProgressTwice(t0, d0, t, d, t', d', alive, replicaCount);
    RoundsOnward(trees, t', alive, replicaCount, good);
    if good {
      GoodTwice(t0, t, t', alive, replicaCount);
    }
  }

  /** One more round of a cycle; without anything to repair the cycle is where it was. */
  method RoundOfCycle(mds: MetadataServer, nodes: Nodes, replicaCount: int, luck: nat -> Luck, repairs: nat,
                      ghost t0: Tree, ghost d0: Disks, ghost trees: seq<Tree>, ghost alive: set<Addr>, ghost good: bool)
    returns (repaired: nat, ghost trees': seq<Tree>)
    requires mds.Valid() && Separate(nodes) && alive == AliveSet(mds.dataNodes)
    requires CycleAt(t0, d0, mds.State().tree, DisksOf(nodes), trees, alive, replicaCount, luck, good)
    modifies mds.repr, nodes.Values
    ensures mds.Valid()
    ensures CycleAt(t0, d0, mds.State().tree, DisksOf(nodes), trees', alive, replicaCount, luck, good)
    ensures repaired == 0 ==> trees' == trees && ToRepair(mds.State().tree, alive, replicaCount) == {}
    ensures repaired > 0 ==> trees' == trees + [mds.State().tree]
  {
    ghost var t, d := mds.State().tree, DisksOf(nodes);
    repaired := Round(mds, nodes, replicaCount, luck, repairs);
    trees' := trees;
    if repaired > 0 {
      CycleOnward(t0, d0, t, d, mds.State().tree, DisksOf(nodes), trees, alive, replicaCount, luck, good);
      trees' := trees + [mds.State().tree];
    }
  }

  lemma NoneLeft(t: Tree, alive: set<Addr>, replicaCount: int)
    requires ToRepair(t, alive, replicaCount) == {}
    ensures forall p | IsFileAt(t, p) && t[p].status == COMPLETE :: |LiveReplicas(t[p].replicas, alive)| >= replicaCount
  {
    forall p | IsFileAt(t, p) && t[p].status == COMPLETE
      ensures |LiveReplicas(t[p].replicas, alive)| >= replicaCount
    {
      assert p !in ToRepair(t, alive, replicaCount);
    }
  }

  /**
   One cycle; `rounds` is how often the deadline test lets the loop go on, done how many rounds
   repaired something. Whatever goes wrong, entries keep everything but the status and list of
   files to repair, live replicas stay listed, and agreement of replicas is kept. When nothing goes
   wrong, no status changes, every file repaired has its full number of live replicas, each round
   leaves strictly fewer files to repair, and unless the deadline ends the cycle none is left.
   */
  method RunReplication(mds: MetadataServer, nodes: Nodes, replicaCount: int, luck: nat -> Luck, rounds: nat)
    returns (done: nat, ghost trees: seq<Tree>)
    requires mds.Valid() && Separate(nodes)
    modifies mds.repr, nodes.Values
    ensures mds.Valid() && |trees| == done + 1
    ensures var alive, t0, t := AliveSet(mds.dataNodes), old(mds.State()).tree, mds.State().tree;
            var d0, d := old(DisksOf(nodes)), DisksOf(nodes);
            && CycleAt(t0, d0, t, d, trees, alive, replicaCount, luck,
                       GoodConditions(t0, d0, alive, replicaCount, luck))
            && (done < rounds ==> ToRepair(t, alive, replicaCount) == {})
            && (done < rounds ==> forall p | IsFileAt(t, p) && t[p].status == COMPLETE ::
                  |LiveReplicas(t[p].replicas, alive)| >= replicaCount)
  {
    ghost var alive, t0, d0 := AliveSet(mds.dataNodes), mds.State().tree, DisksOf(nodes);
    ghost var good := GoodConditions(t0, d0, alive, replicaCount, luck);
    NoProgress(t0, d0, alive, replicaCount);
    done, trees := 0, [t0];
    var repairs: nat, left: nat := 0, rounds;
    while left > 0
      invariant mds.Valid() && left + done == rounds && |trees| == done + 1
      invariant CycleAt(t0, d0, mds.State().tree, DisksOf(nodes), trees, alive, replicaCount, luck, good)
    {
      var repaired, trees' := RoundOfCycle(mds, nodes, replicaCount, luck, repairs, t0, d0, trees, alive, good);
      if repaired == 0 {
        NoneLeft(mds.State().tree, alive, replicaCount);
        return;
      }
      left, done, repairs, trees := left - 1, done + 1, repairs + repaired, trees';
    }
  }
}
