/** The breadth-first scan for files with too few live replicas (findUnderReplicatedTasks). */
module RepairScan {
  import opened Paths
  import opened Subtrees
  import opened Metadata
  import opened RepairLists
  import opened MetadataServers

  datatype RepairTask = RepairTask(path: string, fileID: FileId, size: int, replicas: seq<Replica>)

  /** A file to repair: complete, not being repaired, and with too few live replicas. */
  predicate UnderReplicated(t: Tree, p: Path, alive: set<Addr>, repairing: set<FileId>, replicaCount: int) {
    IsFileAt(t, p) && NeedsRepair(t[p], alive, replicaCount) && t[p].fileID !in repairing
  }

  function TaskFor(t: Tree, p: Path, alive: set<Addr>): RepairTask
    requires p in t
  {
    RepairTask(PathString(p), t[p].fileID, t[p].size, LiveReplicas(t[p].replicas, alive))
  }

  // ----- the queue -----

  datatype Item = Item(entry: Entry, path: string)

  /** The queued items and the paths they stand for. */
  ghost predicate QueueOf(mds: MetadataServer, queue: seq<Item>, paths: seq<Path>)
    reads mds
  {
    && |queue| == |paths|
    && forall i | 0 <= i < |queue| ::
         paths[i] in mds.at && queue[i].entry == mds.at[paths[i]] && queue[i].path == PathString(paths[i])
  }

  ghost predicate Incomparable(p: Path, q: Path) {
    !(p <= q) && !(q <= p)
  }

  ghost predicate Antichain(paths: seq<Path>) {
    forall i, j | 0 <= i < j < |paths| :: Incomparable(paths[i], paths[j])
  }

  /** Everything at and below the queued paths: what the scan has left to visit. */
  ghost function Pending(at: Index, paths: seq<Path>): set<Path> {
    set p | p in at && exists i | 0 <= i < |paths| :: paths[i] <= p
  }

  lemma PendingPush(at: Index, paths: seq<Path>, c: Path)
    ensures Pending(at, paths + [c]) == Pending(at, paths) + Under(at, c)
  {
    var longer := paths + [c];
    forall p | p in Pending(at, paths) + Under(at, c)
      ensures p in Pending(at, longer)
    {
      if p in Under(at, c) {
        assert longer[|paths|] <= p;
      } else {
        var i :| 0 <= i < |paths| && paths[i] <= p;
        assert longer[i] <= p;
      }
    }
  }

  lemma PendingPop(at: Index, paths: seq<Path>)
    requires paths != [] && Antichain(paths)
    ensures Pending(at, paths) == Under(at, paths[0]) + Pending(at, paths[1..])
    ensures Under(at, paths[0]) !! Pending(at, paths[1..])
  {
    var rest := paths[1..];
    forall p | p in Pending(at, paths) && p !in Under(at, paths[0])
      ensures p in Pending(at, rest)
    {
      var i :| 0 <= i < |paths| && paths[i] <= p;
      assert rest[i - 1] <= p;
    }
    forall p | p in Pending(at, rest)
      ensures p in Pending(at, paths) && p !in Under(at, paths[0])
    {
      var i :| 0 <= i < |rest| && rest[i] <= p;
      assert paths[i + 1] <= p;
      if paths[0] <= p {
        Comparable(paths[0], paths[i + 1], p);
      }
    }
  }

  /** The paths strictly below a directory, from its children. */
  lemma UnderChildren(mds: MetadataServer, p: Path, q: Path)
    requires mds.Valid() && p in mds.at && q in mds.at && p <= q && p != q
    ensures |q| > |p| && q[|p|] in mds.at[p].children && Child(p, q[|p|]) <= q
  {
    mds.ChildrenAre(p);
    assert q == p + q[|p|..];
    assert q[|p|..][0] == q[|p|];
  }

  lemma PushedChildApart(paths: seq<Path>, p: Path, k: string)
    requires Antichain(paths) && forall i | 0 <= i < |paths| :: Incomparable(paths[i], Child(p, k))
    ensures Antichain(paths + [Child(p, k)])
  {
  }

  /** What is apart from a directory is apart from its children. */
  lemma ChildApart(q: Path, p: Path, k: string)
    requires Incomparable(q, p)
    ensures Incomparable(q, Child(p, k))
  {
    ChildBelow(q, p, k);
    assert p <= Child(p, k);
  }

  lemma SiblingsApart(p: Path, j: string, k: string)
    requires j != k
    ensures Incomparable(Child(p, j), Child(p, k))
  {
    assert Child(p, j)[|p|] == j && Child(p, k)[|p|] == k;
  }

  ghost function UnderKids(at: Index, p: Path, names: set<string>): set<Path> {
    set q | q in at && p <= q && |q| > |p| && q[|p|] in names
  }

  lemma UnderKidsGrow(at: Index, p: Path, names: set<string>, k: string)
    ensures UnderKids(at, p, names + {k}) == UnderKids(at, p, names) + Under(at, Child(p, k))
  {
    forall q | q in at && p <= q && |q| > |p| && q[|p|] == k
      ensures Child(p, k) <= q
    {
      assert q == p + q[|p|..];
    }
    forall q | q in at && Child(p, k) <= q
      ensures p <= q && |q| > |p| && q[|p|] == k
    {
      assert p <= Child(p, k) && Child(p, k)[|p|] == k;
    }
  }

  lemma UnderAllKids(mds: MetadataServer, p: Path)
    requires mds.Valid() && p in mds.at
    ensures UnderKids(mds.at, p, mds.at[p].children.Keys) == Under(mds.at, p) - {p}
  {
    forall q | q in Under(mds.at, p) && q != p
      ensures q in UnderKids(mds.at, p, mds.at[p].children.Keys)
    {
      UnderChildren(mds, p, q);
    }
  }

  lemma PathStringChild(p: Path, k: string)
    ensures PathString(Child(p, k)) == JoinPath(PathString(p), k)
  {
    assert Parent(Child(p, k)) == p && Last(Child(p, k)) == k;
  }

  /** Appends a directory's children to the queue, in any order. */
  method Enqueue(mds: MetadataServer, e: Entry, ghost p: Path, path: string, queue: seq<Item>, ghost paths: seq<Path>)
    returns (queue': seq<Item>, ghost paths': seq<Path>)
    requires mds.Valid() && p in mds.at && mds.at[p] == e && path == PathString(p)
    requires QueueOf(mds, queue, paths) && Antichain(paths)
    requires forall i | 0 <= i < |paths| :: Incomparable(paths[i], p)
    ensures QueueOf(mds, queue', paths') && Antichain(paths')
    ensures Pending(mds.at, paths') == Pending(mds.at, paths) + (Under(mds.at, p) - {p})
  {
    queue', paths' := queue, paths;
    var todo := e.children.Keys;
    ghost var done: set<string> := {};
    forall i, k | 0 <= i < |paths|
      ensures Incomparable(paths[i], Child(p, k))
    {
      ChildApart(paths[i], p, k);
    }
    while todo != {}
      invariant done + todo == e.children.Keys && done !! todo
      invariant QueueOf(mds, queue', paths') && Antichain(paths')
      invariant forall i, k | 0 <= i < |paths'| && k in todo :: Incomparable(paths'[i], Child(p, k))
      invariant Pending(mds.at, paths') == Pending(mds.at, paths) + UnderKids(mds.at, p, done)
    {
      var k :| k in todo;
      var child := e.children[k];
      mds.ChildUnder(p, k);
      PathStringChild(p, k);
      PushedChildApart(paths', p, k);
      PendingPush(mds.at, paths', Child(p, k));
      UnderKidsGrow(mds.at, p, done, k);
      queue', paths' := queue' + [Item(child, JoinPath(path, child.name))], paths' + [Child(p, k)];
      todo, done := todo - {k}, done + {k};
      forall j | j in todo
        ensures Incomparable(Child(p, k), Child(p, j))
      {
        SiblingsApart(p, k, j);
      }
    }
    UnderAllKids(mds, p);
  }

  method CountLive(rs: seq<Replica>, alive: set<Addr>) returns (live: seq<Replica>)
    ensures live == LiveReplicas(rs, alive)
  {
    live := [];
    for i := 0 to |rs|
      invariant live == LiveReplicas(rs[..i], alive)
    {
      assert rs[..i + 1][..i] == rs[..i];
      if rs[i].addr in alive {
        live := live + [rs[i]];
      }
    }
    assert rs[..|rs|] == rs;
  }

  // ----- the scan -----

  /** found lists the paths the repair tasks are for, each once, each a file to repair. */
  ghost predicate TasksFor(t: Tree, tasks: seq<RepairTask>, found: seq<Path>, alive: set<Addr>,
                           repairing: set<FileId>, replicaCount: int) {
    && |tasks| == |found|
    && (forall i | 0 <= i < |found| ::
          UnderReplicated(t, found[i], alive, repairing, replicaCount) && tasks[i] == TaskFor(t, found[i], alive))
    && (forall i, j | 0 <= i < j < |found| :: found[i] != found[j])
  }

  /** Outside the pending set exactly the files to repair have been found. */
  ghost predicate Scanned(t: Tree, pending: set<Path>, tasks: seq<RepairTask>, found: seq<Path>, alive: set<Addr>,
                          repairing: set<FileId>, replicaCount: int) {
    && TasksFor(t, tasks, found, alive, repairing, replicaCount)
    && (forall i | 0 <= i < |found| :: found[i] !in pending)
    && (forall p | p in t && p !in pending && UnderReplicated(t, p, alive, repairing, replicaCount) :: p in found)
  }

  lemma ScanSkips(t: Tree, pending: set<Path>, p: Path, tasks: seq<RepairTask>, found: seq<Path>, alive: set<Addr>,
                  repairing: set<FileId>, replicaCount: int)
    requires Scanned(t, pending, tasks, found, alive, repairing, replicaCount)
    requires !UnderReplicated(t, p, alive, repairing, replicaCount)
    ensures Scanned(t, pending - {p}, tasks, found, alive, repairing, replicaCount)
  {
  }

  lemma ScanTakes(t: Tree, pending: set<Path>, p: Path, tasks: seq<RepairTask>, found: seq<Path>, alive: set<Addr>,
                  repairing: set<FileId>, replicaCount: int)
    requires Scanned(t, pending, tasks, found, alive, repairing, replicaCount)
    requires p in pending && UnderReplicated(t, p, alive, repairing, replicaCount)
    ensures Scanned(t, pending - {p}, tasks + [TaskFor(t, p, alive)], found + [p], alive, repairing, replicaCount)
  {
    var longer := found + [p];
    assert forall q | q in found || q == p :: q in longer by {
      assert longer[|found|] == p;
      assert forall q | q in found :: q in longer;
    }
  }

  lemma PendingRoot(mds: MetadataServer)
    requires mds.Valid()
    ensures Pending(mds.at, [[]]) == mds.at.Keys
  {
    forall p | p in mds.at
      ensures p in Pending(mds.at, [[]])
    {
      assert [[]][0] <= p;
    }
  }

  lemma UnderFile(mds: MetadataServer, p: Path)
    requires mds.Valid() && p in mds.at && !mds.at[p].isDir
    ensures Under(mds.at, p) == {p}
  {
    forall q | q in Under(mds.at, p)
      ensures q == p
    {
      BelowFile(ShapeOf(mds.at, mds.repr), "/", p, q);
    }
  }

  lemma QueueTail(mds: MetadataServer, queue: seq<Item>, paths: seq<Path>)
    requires queue != [] && QueueOf(mds, queue, paths) && Antichain(paths)
    ensures QueueOf(mds, queue[1..], paths[1..]) && Antichain(paths[1..])
    ensures forall i | 0 <= i < |paths[1..]| :: Incomparable(paths[1..][i], paths[0])
  {
  }

  /** The popped path leaves the pending set and nothing else does. */
  method Expand(mds: MetadataServer, queue: seq<Item>, ghost paths: seq<Path>)
    returns (queue': seq<Item>, ghost paths': seq<Path>)
    requires mds.Valid() && queue != [] && QueueOf(mds, queue, paths) && Antichain(paths)
    ensures QueueOf(mds, queue', paths') && Antichain(paths')
    ensures paths[0] in Pending(mds.at, paths)
    ensures Pending(mds.at, paths') == Pending(mds.at, paths) - {paths[0]}
  {
    var item := queue[0];
    ghost var p := paths[0];
    QueueTail(mds, queue, paths);
    PendingPop(mds.at, paths);
    assert p in Under(mds.at, p);
    if item.entry.isDir {
      queue', paths' := Enqueue(mds, item.entry, p, item.path, queue[1..], paths[1..]);
    } else {
      UnderFile(mds, p);
      queue', paths' := queue[1..], paths[1..];
    }
  }

  /** The test on one queued entry: nothing, or the repair task for its path. */
  method Inspect(mds: MetadataServer, item: Item, ghost p: Path, alive: set<Addr>, repairing: set<FileId>,
                 replicaCount: int)
    returns (task: seq<RepairTask>)
    requires mds.Valid() && p in mds.at && item.entry == mds.at[p] && item.path == PathString(p)
    ensures var t := mds.State().tree;
            task == if UnderReplicated(t, p, alive, repairing, replicaCount) then [TaskFor(t, p, alive)] else []
  {
    var e := item.entry;
    if e.isDir || e.status == PENDING || e.status == RECOVERING || e.fileID in repairing {
      return [];
    }
    var live := CountLive(e.replicas, alive);
    if |live| < replicaCount {
      return [RepairTask(item.path, e.fileID, e.size, live)];
    }
    return [];
  }

  function AliveSet(nodes: seq<Addr>): (alive: set<Addr>)
    ensures forall a :: a in alive <==> a in nodes
  {
    set a | a in nodes
  }

  /** One turn of the scan: pop an item, queue its children or look at it as a file. */
  method ScanStep(mds: MetadataServer, queue: seq<Item>, ghost paths: seq<Path>, tasks: seq<RepairTask>,
                  ghost found: seq<Path>, alive: set<Addr>, repairing: set<FileId>, replicaCount: int)
    returns (queue': seq<Item>, ghost paths': seq<Path>, tasks': seq<RepairTask>, ghost found': seq<Path>, added: bool)
    requires mds.Valid() && queue != [] && QueueOf(mds, queue, paths) && Antichain(paths)
    requires Scanned(mds.State().tree, Pending(mds.at, paths), tasks, found, alive, repairing, replicaCount)
    ensures QueueOf(mds, queue', paths') && Antichain(paths')
    ensures Pending(mds.at, paths') < Pending(mds.at, paths)
    ensures Scanned(mds.State().tree, Pending(mds.at, paths'), tasks', found', alive, repairing, replicaCount)
    ensures |tasks'| == |tasks| + if added then 1 else 0
  {
    ghost var t, p, pending := mds.State().tree, paths[0], Pending(mds.at, paths);
    var task := Inspect(mds, queue[0], p, alive, repairing, replicaCount);
    queue', paths' := Expand(mds, queue, paths);
    added := task != [];
    tasks', found' := tasks + task, found;
    if added {
      ScanTakes(t, pending, p, tasks, found, alive, repairing, replicaCount);
      found' := found + [p];
    } else {
      ScanSkips(t, pending, p, tasks, found, alive, repairing, replicaCount);
      assert tasks' == tasks;
    }
  }

  /**
   Up to k tasks. Each is for a distinct file to repair, carries exactly its live replicas and
   a path that looks up to that file again; fewer than k tasks means no file was missed.
   */
  method FindTasks(mds: MetadataServer, repairing: set<FileId>, replicaCount: int, k: int)
    returns (tasks: seq<RepairTask>, alive: set<Addr>, ghost found: seq<Path>)
    requires mds.Valid()
    ensures alive == AliveSet(mds.dataNodes)
    ensures TasksFor(mds.State().tree, tasks, found, alive, repairing, replicaCount)
    ensures forall i | 0 <= i < |tasks| :: Components(tasks[i].path) == found[i]
    ensures |tasks| <= if k < 1 then 1 else k
    ensures |tasks| < k || tasks == [] ==>
            forall p | UnderReplicated(mds.State().tree, p, alive, repairing, replicaCount) :: p in found
    ensures forall i | 0 <= i < |tasks| ::
              && IsFileAt(mds.State().tree, found[i])
              && var a := mds.State().tree[found[i]];
              && a.status != PENDING && a.status != RECOVERING && a.fileID !in repairing
              && |tasks[i].replicas| < replicaCount
              && tasks[i] == RepairTask(PathString(found[i]), a.fileID, a.size, LiveReplicas(a.replicas, alive))
    ensures |tasks| < k || tasks == [] ==>
              var t := mds.State().tree;
              forall p | && IsFileAt(t, p) && t[p].status != PENDING && t[p].status != RECOVERING
                         && t[p].fileID !in repairing && |LiveReplicas(t[p].replicas, alive)| < replicaCount ::
                p in found
  {
    alive := AliveSet(mds.dataNodes);
    tasks, found := [], [];
    ghost var t := mds.State().tree;
    PendingRoot(mds);
    var queue := [Item(mds.root, "/")];
    ghost var paths: seq<Path> := [[]];
    while queue != []
      invariant QueueOf(mds, queue, paths) && Antichain(paths)
      invariant Scanned(t, Pending(mds.at, paths), tasks, found, alive, repairing, replicaCount)
      invariant tasks == [] || |tasks| < k
      decreases Pending(mds.at, paths)
    {
      var added;
      queue, paths, tasks, found, added := ScanStep(mds, queue, paths, tasks, found, alive, repairing, replicaCount);
      if added && |tasks| >= k {
        break;
      }
    }
    mds.TreeWellFormed();
    NothingPending(mds.at, paths);
    TasksAre(t, tasks, found, alive, repairing, replicaCount);
    PathsLookUp(t, tasks, found, alive, repairing, replicaCount);
  }

  /** The tests of the scan, one by one. */
  lemma TasksAre(t: Tree, tasks: seq<RepairTask>, found: seq<Path>, alive: set<Addr>, repairing: set<FileId>,
                 replicaCount: int)
    requires TasksFor(t, tasks, found, alive, repairing, replicaCount)
    ensures forall i | 0 <= i < |tasks| ::
              && IsFileAt(t, found[i]) && t[found[i]].status != PENDING && t[found[i]].status != RECOVERING
              && t[found[i]].fileID !in repairing && |tasks[i].replicas| < replicaCount
              && tasks[i] == RepairTask(PathString(found[i]), t[found[i]].fileID, t[found[i]].size,
                                        LiveReplicas(t[found[i]].replicas, alive))
    ensures forall p | IsFileAt(t, p) && t[p].status != PENDING && t[p].status != RECOVERING &&
              t[p].fileID !in repairing && |LiveReplicas(t[p].replicas, alive)| < replicaCount ::
                UnderReplicated(t, p, alive, repairing, replicaCount)
  {
    forall i | 0 <= i < |tasks|
      ensures UnderReplicated(t, found[i], alive, repairing, replicaCount) && tasks[i] == TaskFor(t, found[i], alive)
    {
    }
  }

  lemma NothingPending(at: Index, paths: seq<Path>)
    ensures paths == [] ==> Pending(at, paths) == {}
  {
  }

  lemma PathsLookUp(t: Tree, tasks: seq<RepairTask>, found: seq<Path>, alive: set<Addr>, repairing: set<FileId>,
                    replicaCount: int)
    requires WellFormed(t) && TasksFor(t, tasks, found, alive, repairing, replicaCount)
    ensures forall i | 0 <= i < |tasks| :: Components(tasks[i].path) == found[i]
  {
    forall i | 0 <= i < |tasks|
      ensures Components(tasks[i].path) == found[i]
    {
      assert Hangs(t, found[i]);
      ComponentsPathString(found[i]);
    }
  }
}
