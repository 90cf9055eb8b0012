/** What any number of repairs keep, whatever goes wrong, and what they achieve when nothing does. */
module RepairProgress {
  import opened Paths
  import opened Subtrees
  import opened Metadata
  import opened Invariants
  import opened Logs
  import opened Identity
  import opened RepairLists
  import opened ReplicaLists
  import opened RepairScan
  import opened DataNodes
  import opened Clusters
  import opened ReplicaCopies
  import opened Replicator

  // ----- whatever the luck -----

  /** Kind, size, mode, creation time and ID are the same. */
  predicate SameButRepair(a: Attrs, b: Attrs) {
    a.(modTime := 0, status := "", replicas := []) == b.(modTime := 0, status := "", replicas := [])
  }

  /** r is a replica a had, or a new one under a's own ID on a live node. */
  predicate FromRepair(a: Attrs, r: Replica, alive: set<Addr>) {
    r in a.replicas || (r.addr in alive && r.remotePath == DataPath(a.fileID))
  }

  /**
   What repairs leave of the entry at q: all of it if it was not under-replicated, else everything
   but status and list; and no live replica is dropped from the list.
   */
  ghost predicate KeptAt(t: Tree, t': Tree, alive: set<Addr>, replicaCount: int, q: Path) {
    if q !in t then q !in t'
    else
      && q in t' && SameButRepair(t[q], t'[q])
      && (!UnderReplicated(t, q, alive, {}, replicaCount) ==> t'[q] == t[q])
      && t'[q].status in {t[q].status, COMPLETE, RECOVERING}
      && (forall r | r in t[q].replicas && r.addr in alive :: r in t'[q].replicas)
      && (forall r | r in t'[q].replicas :: FromRepair(t[q], r, alive))
      && (GoodList(t[q].replicas) ==> GoodList(t'[q].replicas))
  }

  ghost predicate Kept(t: Tree, t': Tree, alive: set<Addr>, replicaCount: int) {
    forall q {:trigger KeptAt(t, t', alive, replicaCount, q)} :: KeptAt(t, t', alive, replicaCount, q)
  }

  /** Where a repair may write: under the ID of a file to repair, on a live node without a live replica of it. */
  ghost predicate Touchable(t: Tree, alive: set<Addr>, replicaCount: int, r: Replica) {
    r.addr in alive && exists q ::
      && UnderReplicated(t, q, alive, {}, replicaCount) && r.remotePath == DataPath(t[q].fileID)
      && r.addr !in AddrSet(LiveReplicas(t[q].replicas, alive))
  }

  ghost predicate BytesKeptAt(t: Tree, d: Disks, d': Disks, alive: set<Addr>, replicaCount: int, r: Replica) {
    FileOn(d', r) == FileOn(d, r) || Touchable(t, alive, replicaCount, r)
  }

  ghost predicate BytesKept(t: Tree, d: Disks, d': Disks, alive: set<Addr>, replicaCount: int) {
    d'.Keys == d.Keys &&
    forall r {:trigger BytesKeptAt(t, d, d', alive, replicaCount, r)} :: BytesKeptAt(t, d, d', alive, replicaCount, r)
  }

  /** The live replicas of the file at q agree on bytes of the recorded length. */
  ghost predicate SyncedAt(t: Tree, d: Disks, alive: set<Addr>, q: Path) {
    IsFileAt(t, q) ==> exists c :: |c| == t[q].size && Agree(d, LiveReplicas(t[q].replicas, alive), c)
  }

  /** No data has two owners; true in every state of a run with fresh IDs and no stale swap. */
  ghost predicate DataOwned(t: Tree) {
    IsDirAt(t, []) && DataApart(t) && UniqueIds(t)
  }

  lemma RunsOwnData(start: Time, log: Log, i: nat)
    requires HandlerLog(start, log) && FreshIds(log) && i <= |log| && NoneStale(start, log, i)
    ensures DataOwned(StateAt(start, log, i).tree)
  {
    StatesAreSound(start, log, i);
    IdsStayUnique(start, log, i);
    DataStaysApart(start, log, i);
  }

  ghost predicate SyncKept(t: Tree, d: Disks, t': Tree, d': Disks, alive: set<Addr>) {
    DataOwned(t) ==>
      && DataOwned(t')
      && forall q {:trigger SyncedAt(t', d', alive, q)} | SyncedAt(t, d, alive, q) :: SyncedAt(t', d', alive, q)
  }

  ghost predicate Progress(t: Tree, d: Disks, t': Tree, d': Disks, alive: set<Addr>, replicaCount: int) {
    Kept(t, t', alive, replicaCount) && BytesKept(t, d, d', alive, replicaCount) && SyncKept(t, d, t', d', alive)
  }

  lemma NoProgress(t: Tree, d: Disks, alive: set<Addr>, replicaCount: int)
    ensures Progress(t, d, t, d, alive, replicaCount)
  {
  }

  lemma KeptTwice(t: Tree, t1: Tree, t2: Tree, alive: set<Addr>, replicaCount: int, q: Path)
    requires KeptAt(t, t1, alive, replicaCount, q) && KeptAt(t1, t2, alive, replicaCount, q)
    ensures KeptAt(t, t2, alive, replicaCount, q)
    ensures UnderReplicated(t1, q, alive, {}, replicaCount) ==> UnderReplicated(t, q, alive, {}, replicaCount)
  {
    if q in t {
      forall r | r in t2[q].replicas
        ensures FromRepair(t[q], r, alive)
      {
        assert FromRepair(t1[q], r, alive);
        assert t1[q].fileID == t[q].(modTime := 0, status := "", replicas := []).fileID;
      }
    }
  }

  lemma TouchableBefore(t: Tree, t1: Tree, alive: set<Addr>, replicaCount: int, r: Replica)
    requires Kept(t, t1, alive, replicaCount) && Touchable(t1, alive, replicaCount, r)
    ensures Touchable(t, alive, replicaCount, r)
  {
    var q :| UnderReplicated(t1, q, alive, {}, replicaCount) && r.remotePath == DataPath(t1[q].fileID)
             && r.addr !in AddrSet(LiveReplicas(t1[q].replicas, alive));
    assert KeptAt(t, t1, alive, replicaCount, q);
    assert t1[q].fileID == t[q].(modTime := 0, status := "", replicas := []).fileID;
    LiveReplicasAre(t[q].replicas, alive);
    LiveReplicasAre(t1[q].replicas, alive);
    forall x | x in LiveReplicas(t[q].replicas, alive)
      ensures x.addr in AddrSet(LiveReplicas(t1[q].replicas, alive))
    {
      assert x in LiveReplicas(t1[q].replicas, alive);
    }
  }

  lemma ProgressTwice(
    t: Tree, d: Disks, t1: Tree, d1: Disks, t2: Tree, d2: Disks, alive: set<Addr>, replicaCount: int)
    requires Progress(t, d, t1, d1, alive, replicaCount) && Progress(t1, d1, t2, d2, alive, replicaCount)
    ensures Progress(t, d, t2, d2, alive, replicaCount)
  {
    forall q
      ensures KeptAt(t, t2, alive, replicaCount, q)
    {
      assert KeptAt(t, t1, alive, replicaCount, q) && KeptAt(t1, t2, alive, replicaCount, q);
      KeptTwice(t, t1, t2, alive, replicaCount, q);
    }
    forall r
      ensures BytesKeptAt(t, d, d2, alive, replicaCount, r)
    {
      assert BytesKeptAt(t, d, d1, alive, replicaCount, r) && BytesKeptAt(t1, d1, d2, alive, replicaCount, r);
      if Touchable(t1, alive, replicaCount, r) {
        TouchableBefore(t, t1, alive, replicaCount, r);
      }
    }
  }

  // ----- one repair is progress -----

  /** A repair as RepairFile performs it, for some targets of which those in up pull the file. */
  ghost predicate OneRepair(t: Tree, d: Disks, t': Tree, d': Disks, p: Path, targets: seq<Addr>, up: set<Addr>,
                            alive: set<Addr>, replicaCount: int, luck: Luck, err: bool)
  {
    && UnderReplicated(t, p, alive, {}, replicaCount)
    && var task := TaskFor(t, p, alive);
    && TargetsFor(targets, task.replicas, alive, replicaCount - |task.replicas|)
    && (forall a | a in up :: a in targets && a in d)
    && RepairDone(t, t', p, t[p], d, d', task, targets, up, luck, err)
  }

  lemma RepairLocal(t: Tree, d: Disks, t': Tree, d': Disks, p: Path, targets: seq<Addr>, up: set<Addr>,
                    alive: set<Addr>, replicaCount: int, luck: Luck, err: bool)
    requires OneRepair(t, d, t', d', p, targets, up, alive, replicaCount, luck, err)
    ensures IsFileAt(t', p) && t'.Keys == t.Keys && (forall q | q in t && q != p :: t'[q] == t[q])
    ensures SameButRepair(t[p], t'[p])
    ensures var task := TaskFor(t, p, alive);
            var b := Repaired(t[p], task, targets, RepairedCopies(d, task, up, luck), luck);
            t'[p].status == b.status && t'[p].replicas == b.replicas
  {
    var task := TaskFor(t, p, alive);
    var b := Repaired(t[p], task, targets, RepairedCopies(d, task, up, luck), luck);
    assert t'[p].(modTime := 0) == b.(modTime := 0);
    assert t'[p].(modTime := 0).(status := "", replicas := []) == b.(modTime := 0).(status := "", replicas := []);
    assert t'[p].(modTime := 0).status == b.(modTime := 0).status;
    assert t'[p].(modTime := 0).replicas == b.(modTime := 0).replicas;
  }

  /** The list a repair leaves keeps the live replicas and adds new ones under the file's ID. */
  lemma ListAfterRepair(t: Tree, p: Path, targets: seq<Addr>, copies: set<Addr>, alive: set<Addr>, replicaCount: int,
                        luck: Luck)
    requires UnderReplicated(t, p, alive, {}, replicaCount)
    requires var live := LiveReplicas(t[p].replicas, alive); TargetsFor(targets, live, alive, replicaCount - |live|)
    ensures var b := Repaired(t[p], TaskFor(t, p, alive), targets, copies, luck);
            && b.status in {t[p].status, COMPLETE, RECOVERING}
            && (forall r | r in t[p].replicas && r.addr in alive :: r in b.replicas)
            && (forall r | r in b.replicas :: FromRepair(t[p], r, alive))
            && (GoodList(t[p].replicas) ==> GoodList(b.replicas))
  {
    var task := TaskFor(t, p, alive);
    LiveReplicasAre(t[p].replicas, alive);
    CopiedAre(targets, copies, task.fileID);
    if GoodList(t[p].replicas) {
      RepairedList(t, p, task, targets, copies, alive, replicaCount);
    }
  }

  lemma OthersKept(t: Tree, t': Tree, alive: set<Addr>, replicaCount: int, p: Path)
    requires t'.Keys == t.Keys && forall q | q in t && q != p :: t'[q] == t[q]
    requires KeptAt(t, t', alive, replicaCount, p)
    ensures Kept(t, t', alive, replicaCount)
  {
  }

  lemma RepairKeeps(t: Tree, d: Disks, t': Tree, d': Disks, p: Path, targets: seq<Addr>, up: set<Addr>,
                    alive: set<Addr>, replicaCount: int, luck: Luck, err: bool)
    requires OneRepair(t, d, t', d', p, targets, up, alive, replicaCount, luck, err)
    ensures Kept(t, t', alive, replicaCount)
  {
    RepairLocal(t, d, t', d', p, targets, up, alive, replicaCount, luck, err);
    ListAfterRepair(t, p, targets, RepairedCopies(d, TaskFor(t, p, alive), up, luck), alive, replicaCount, luck);
    OthersKept(t, t', alive, replicaCount, p);
  }

  lemma RepairWrites(t: Tree, d: Disks, t': Tree, d': Disks, p: Path, targets: seq<Addr>, up: set<Addr>,
                     alive: set<Addr>, replicaCount: int, luck: Luck, err: bool, r: Replica)
    requires OneRepair(t, d, t', d', p, targets, up, alive, replicaCount, luck, err)
    ensures d'.Keys == d.Keys
    ensures FileOn(d', r) == FileOn(d, r) ||
            (r.addr in targets && r.remotePath == DataPath(t[p].fileID) && Touchable(t, alive, replicaCount, r))
  {
    var task := TaskFor(t, p, alive);
    if task.replicas != [] {
      PulledAt(d, BytesOn(d, task.replicas[0]), DataPath(task.fileID), task.size, targets, up, luck.turns, r);
    }
  }

  lemma RepairKeepsSync(t: Tree, d: Disks, t': Tree, d': Disks, p: Path, targets: seq<Addr>, up: set<Addr>,
                        alive: set<Addr>, replicaCount: int, luck: Luck, err: bool, q: Path)
    requires OneRepair(t, d, t', d', p, targets, up, alive, replicaCount, luck, err)
    requires DataApart(t) && SyncedAt(t, d, alive, q)
    ensures SyncedAt(t', d', alive, q)
  {
    RepairLocal(t, d, t', d', p, targets, up, alive, replicaCount, luck, err);
    if IsFileAt(t', q) {
      var c :| |c| == t[q].size && Agree(d, LiveReplicas(t[q].replicas, alive), c);
      if q == p {
        RepairedAgreesIff(t, d, t', d', p, targets, up, alive, replicaCount, luck, err, c);
      } else {
        LiveReplicasAre(t[q].replicas, alive);
        assert ApartAt(t, p, q);
        forall r | r in LiveReplicas(t[q].replicas, alive)
          ensures BytesOn(d', r) == c
        {
          RepairWrites(t, d, t', d', p, targets, up, alive, replicaCount, luck, err, r);
        }
        assert Agree(d', LiveReplicas(t'[q].replicas, alive), c);
      }
    }
  }

  /**
   The repaired file itself, on every exit path: if its live replicas agreed, they still do exactly
   if the bytes have the recorded length, or no new copy got into the list.
   */
  lemma RepairedAgreesIff(t: Tree, d: Disks, t': Tree, d': Disks, p: Path, targets: seq<Addr>, up: set<Addr>,
                          alive: set<Addr>, replicaCount: int, luck: Luck, err: bool, c: Bytes)
    requires OneRepair(t, d, t', d', p, targets, up, alive, replicaCount, luck, err) && t[p].size >= 0
    requires Agree(d, LiveReplicas(t[p].replicas, alive), c)
    ensures p in t' && t'[p].size == t[p].size
    ensures var copies := RepairedCopies(d, TaskFor(t, p, alive), up, luck);
            Agree(d', LiveReplicas(t'[p].replicas, alive), c) <==>
            |c| == t[p].size || copies == {} || !(luck.toRecovering && luck.swapList)
  {
    var task := TaskFor(t, p, alive);
    var copies := RepairedCopies(d, task, up, luck);
    RepairLocal(t, d, t', d', p, targets, up, alive, replicaCount, luck, err);
    assert t'[p].(modTime := 0, status := "", replicas := []).size == t'[p].size;
    LiveReplicasAre(t[p].replicas, alive);
    LiveReplicasAre(t'[p].replicas, alive);
    CopiedAre(targets, copies, task.fileID);
    if task.replicas != [] {
      assert task.replicas[0] in task.replicas;
      CopiesAgreeIff(d, task, targets, up, luck.turns, c);
      assert forall r | r in task.replicas + Copied(targets, copies, task.fileID) :: r.addr in alive;
      LiveReplicasAre(task.replicas + Copied(targets, copies, task.fileID), alive);
    }
  }

  lemma RepairKeepsOwners(t: Tree, d: Disks, t': Tree, d': Disks, p: Path, targets: seq<Addr>, up: set<Addr>,
                         alive: set<Addr>, replicaCount: int, luck: Luck, err: bool)
    requires OneRepair(t, d, t', d', p, targets, up, alive, replicaCount, luck, err) && DataOwned(t)
    ensures DataOwned(t')
  {
    RepairKeeps(t, d, t', d', p, targets, up, alive, replicaCount, luck, err);
    KeepsOwners(t, t', alive, replicaCount);
  }

  lemma KeepsOwners(t: Tree, t': Tree, alive: set<Addr>, replicaCount: int)
    requires Kept(t, t', alive, replicaCount) && DataOwned(t)
    ensures DataOwned(t')
  {
    forall q
      ensures q in t <==> q in t'
      ensures q in t ==> t'[q].fileID == t[q].fileID && t'[q].isDir == t[q].isDir
    {
      assert KeptAt(t, t', alive, replicaCount, q);
      if q in t {
        assert t'[q].(modTime := 0, status := "", replicas := []).fileID == t'[q].fileID;
        assert t'[q].(modTime := 0, status := "", replicas := []).isDir == t'[q].isDir;
      }
    }
    forall p, q
      ensures SameId(t', p, q)
    {
      assert SameId(t, p, q);
    }
    forall p, q
      ensures ApartAt(t', p, q)
    {
      if IsFileAt(t', p) && IsFileAt(t', q) && p != q {
        assert ApartAt(t, p, q) && SameId(t, p, q) && KeptAt(t, t', alive, replicaCount, q);
        forall r | r in t'[q].replicas
          ensures r.remotePath != DataPath(t'[p].fileID)
        {
          assert FromRepair(t[q], r, alive);
          if r.remotePath == DataPath(t'[p].fileID) && r !in t[q].replicas {
            DataPathInjective(t[q].fileID, t[p].fileID);
          }
        }
      }
    }
  }

  lemma RepairIsProgress(t: Tree, d: Disks, t': Tree, d': Disks, p: Path, targets: seq<Addr>, up: set<Addr>,
                         alive: set<Addr>, replicaCount: int, luck: Luck, err: bool)
    requires OneRepair(t, d, t', d', p, targets, up, alive, replicaCount, luck, err)
    ensures Progress(t, d, t', d', alive, replicaCount)
  {
    RepairKeeps(t, d, t', d', p, targets, up, alive, replicaCount, luck, err);
    forall r
      ensures BytesKeptAt(t, d, d', alive, replicaCount, r) && d'.Keys == d.Keys
    {
      RepairWrites(t, d, t', d', p, targets, up, alive, replicaCount, luck, err, r);
    }
    RepairWrites(t, d, t', d', p, targets, up, alive, replicaCount, luck, err, Replica("", ""));
    if DataOwned(t) {
      RepairKeepsOwners(t, d, t', d', p, targets, up, alive, replicaCount, luck, err);
      forall q | SyncedAt(t, d, alive, q)
        ensures SyncedAt(t', d', alive, q)
      {
        RepairKeepsSync(t, d, t', d', p, targets, up, alive, replicaCount, luck, err, q);
      }
    }
  }

  /** So repairs keep the run properties of replica lists. */
  lemma ProgressKeepsLists(t: Tree, t': Tree, alive: set<Addr>, replicaCount: int, known: set<Addr>)
    requires Kept(t, t', alive, replicaCount) && alive <= known
    ensures ListsGood(known, t) ==> ListsGood(known, t')
    ensures PathsMatch(t) ==> PathsMatch(t')
  {
    forall q | q in t'
      ensures q in t && t'[q].fileID == t[q].fileID && t'[q].isDir == t[q].isDir
    {
      assert KeptAt(t, t', alive, replicaCount, q);
      assert t'[q].(modTime := 0, status := "", replicas := []).fileID == t'[q].fileID;
      assert t'[q].(modTime := 0, status := "", replicas := []).isDir == t'[q].isDir;
    }
    forall q
      ensures ListsGood(known, t) ==> ListGoodAt(known, t', q)
      ensures PathsMatch(t) ==> PathMatchesAt(t', q)
    {
      if IsFileAt(t', q) {
        assert KeptAt(t, t', alive, replicaCount, q);
        assert forall r | r in t'[q].replicas :: FromRepair(t[q], r, alive);
        assert ListsGood(known, t) ==> ListGoodAt(known, t, q);
        assert PathsMatch(t) ==> PathMatchesAt(t, q);
      }
    }
  }

  // ----- when nothing goes wrong -----

  /** The files left to repair. */
  ghost function ToRepair(t: Tree, alive: set<Addr>, replicaCount: int): set<Path> {
    set p | p in t && UnderReplicated(t, p, alive, {}, replicaCount)
  }

  /** A file to repair has a live replica, and the first is at least as long as the recorded size. */
  ghost predicate Repairable(t: Tree, d: Disks, alive: set<Addr>, replicaCount: int, p: Path) {
    UnderReplicated(t, p, alive, {}, replicaCount) ==>
      var live := LiveReplicas(t[p].replicas, alive);
      live != [] && |BytesOn(d, live[0])| >= t[p].size
  }

  /** Enough live nodes, and every file to repair can be repaired. */
  ghost predicate Healthy(t: Tree, d: Disks, alive: set<Addr>, replicaCount: int) {
    && replicaCount <= |alive| && alive <= d.Keys && DataOwned(t)
    && forall p {:trigger Repairable(t, d, alive, replicaCount, p)} :: Repairable(t, d, alive, replicaCount, p)
  }

  ghost predicate Lasts(luck: Luck, n: int) {
    forall a :: luck.turns(a) >= n
  }

  /** Every commit succeeds, live nodes can be reached, and no connection breaks while there is something to copy. */
  ghost predicate AllSucceeds(luck: Luck, t: Tree, alive: set<Addr>) {
    && luck.toRecovering && luck.swapList && luck.toComplete && alive !! luck.down
    && forall p | p in t :: Lasts(luck, t[p].size)
  }

  predicate KnownStatus(status: string) {
    status in {PENDING, COMPLETE, RECOVERING}
  }

  /** The status is the old one; an entry to repair is untouched or has its full number of live replicas. */
  ghost predicate GoodAt(t: Tree, t': Tree, alive: set<Addr>, replicaCount: int, q: Path) {
    q in t && q in t' ==>
      && (KnownStatus(t[q].status) ==> t'[q].status == t[q].status)
      && (UnderReplicated(t, q, alive, {}, replicaCount) ==>
            t'[q] == t[q] || |LiveReplicas(t'[q].replicas, alive)| == replicaCount)
  }

  ghost predicate Good(t: Tree, t': Tree, alive: set<Addr>, replicaCount: int) {
    forall q {:trigger GoodAt(t, t', alive, replicaCount, q)} :: GoodAt(t, t', alive, replicaCount, q)
  }

  lemma GoodTwice(t: Tree, t1: Tree, t2: Tree, alive: set<Addr>, replicaCount: int)
    requires Kept(t, t1, alive, replicaCount) && Kept(t1, t2, alive, replicaCount)
    requires Good(t, t1, alive, replicaCount) && Good(t1, t2, alive, replicaCount)
    ensures Good(t, t2, alive, replicaCount)
  {
    forall q
      ensures GoodAt(t, t2, alive, replicaCount, q)
    {
      assert GoodAt(t, t1, alive, replicaCount, q) && GoodAt(t1, t2, alive, replicaCount, q);
      assert KeptAt(t, t1, alive, replicaCount, q) && KeptAt(t1, t2, alive, replicaCount, q);
    }
  }

  lemma StillSucceeds(luck: Luck, t: Tree, t': Tree, alive: set<Addr>, replicaCount: int)
    requires Kept(t, t', alive, replicaCount) && AllSucceeds(luck, t, alive)
    ensures AllSucceeds(luck, t', alive)
  {
    forall q | q in t'
      ensures Lasts(luck, t'[q].size)
    {
      assert KeptAt(t, t', alive, replicaCount, q);
      assert t'[q].(modTime := 0, status := "", replicas := []).size == t'[q].size;
    }
  }

  /** A repair under good conditions, with every target connected. */
  ghost predicate GoodRepair(t: Tree, d: Disks, t': Tree, d': Disks, p: Path, targets: seq<Addr>, up: set<Addr>,
                             alive: set<Addr>, replicaCount: int, luck: Luck, err: bool)
  {
    && OneRepair(t, d, t', d', p, targets, up, alive, replicaCount, luck, err)
    && Healthy(t, d, alive, replicaCount) && AllSucceeds(luck, t, alive)
    && forall a | a in targets :: a in up
  }

  /** Every target copies the whole file. */
  lemma AllCopied(d: Disks, task: RepairTask, targets: seq<Addr>, up: set<Addr>, luck: Luck)
    requires task.replicas != [] && |BytesOn(d, task.replicas[0])| >= task.size && Lasts(luck, task.size)
    requires forall a | a in targets :: a in up
    ensures forall a | a in targets :: a in RepairedCopies(d, task, up, luck)
  {
    forall a | a in targets
      ensures a in RepairedCopies(d, task, up, luck)
    {
      CopyIsPrefix(BytesOn(d, task.replicas[0]), task.size, luck.turns(a));
    }
  }

  /** A repair under good conditions leaves the file with exactly the wanted number of live replicas. */
  lemma RepairedEnough(t: Tree, d: Disks, t': Tree, d': Disks, p: Path, targets: seq<Addr>, up: set<Addr>,
                       alive: set<Addr>, replicaCount: int, luck: Luck, err: bool)
    requires GoodRepair(t, d, t', d', p, targets, up, alive, replicaCount, luck, err)
    ensures IsFileAt(t', p) && t'[p].status == COMPLETE
    ensures |LiveReplicas(t'[p].replicas, alive)| == replicaCount
  {
    var task := TaskFor(t, p, alive);
    var copies := RepairedCopies(d, task, up, luck);
    assert Repairable(t, d, alive, replicaCount, p);
    AllCopied(d, task, targets, up, luck);
    RepairLocal(t, d, t', d', p, targets, up, alive, replicaCount, luck, err);
    EnoughTargets(targets, task.replicas, alive, replicaCount);
    CopiedAre(targets, copies, task.fileID);
    LiveReplicasAre(t[p].replicas, alive);
    LiveReplicasAre(task.replicas + Copied(targets, copies, task.fileID), alive);
  }

  /** A repair under good conditions takes its file off the list and leaves the others as they are. */
  lemma RepairFixes(t: Tree, d: Disks, t': Tree, d': Disks, p: Path, targets: seq<Addr>, up: set<Addr>,
                    alive: set<Addr>, replicaCount: int, luck: Luck, err: bool)
    requires GoodRepair(t, d, t', d', p, targets, up, alive, replicaCount, luck, err)
    ensures ToRepair(t', alive, replicaCount) == ToRepair(t, alive, replicaCount) - {p}
    ensures Healthy(t', d', alive, replicaCount) && Good(t, t', alive, replicaCount)
  {
    RepairedEnough(t, d, t', d', p, targets, up, alive, replicaCount, luck, err);
    RepairLocal(t, d, t', d', p, targets, up, alive, replicaCount, luck, err);
    RepairKeepsOwners(t, d, t', d', p, targets, up, alive, replicaCount, luck, err);
    RepairWrites(t, d, t', d', p, targets, up, alive, replicaCount, luck, err, Replica("", ""));
    OneDone(t, t', p, alive, replicaCount);
    forall q
      ensures Repairable(t', d', alive, replicaCount, q)
    {
      StillRepairable(t, d, t', d', p, targets, up, alive, replicaCount, luck, err, q);
    }
  }

  lemma OneDone(t: Tree, t': Tree, p: Path, alive: set<Addr>, replicaCount: int)
    requires UnderReplicated(t, p, alive, {}, replicaCount)
    requires t'.Keys == t.Keys && forall q | q in t && q != p :: t'[q] == t[q]
    requires t'[p].status == COMPLETE && |LiveReplicas(t'[p].replicas, alive)| == replicaCount
    ensures ToRepair(t', alive, replicaCount) == ToRepair(t, alive, replicaCount) - {p}
    ensures Good(t, t', alive, replicaCount)
  {
  }

  lemma StillRepairable(t: Tree, d: Disks, t': Tree, d': Disks, p: Path, targets: seq<Addr>, up: set<Addr>,
                        alive: set<Addr>, replicaCount: int, luck: Luck, err: bool, q: Path)
    requires OneRepair(t, d, t', d', p, targets, up, alive, replicaCount, luck, err) && DataApart(t)
    requires Repairable(t, d, alive, replicaCount, q) && !UnderReplicated(t', p, alive, {}, replicaCount)
    ensures Repairable(t', d', alive, replicaCount, q)
  {
    RepairLocal(t, d, t', d', p, targets, up, alive, replicaCount, luck, err);
    if UnderReplicated(t', q, alive, {}, replicaCount) {
      var live := LiveReplicas(t[q].replicas, alive);
      LiveReplicasAre(t[q].replicas, alive);
      assert live[0] in live && ApartAt(t, p, q);
      RepairWrites(t, d, t', d', p, targets, up, alive, replicaCount, luck, err, live[0]);
    }
  }

  lemma {:induction false} DistinctWithin(xs: seq<Addr>, alive: set<Addr>)
    requires Distinct(xs) && forall a | a in xs :: a in alive
    ensures |xs| <= |alive|
  {
    if xs != [] {
      var n := |xs| - 1;
      assert forall a | a in xs[..n] :: a in xs && a != xs[n];
      DistinctWithin(xs[..n], alive - {xs[n]});
    }
  }

  lemma LiveWithinAlive(rs: seq<Replica>, alive: set<Addr>)
    requires Distinct(Addrs(rs))
    ensures |LiveReplicas(rs, alive)| <= |alive|
  {
    LiveReplicasDistinct(rs, alive);
    LiveReplicasAre(rs, alive);
    var kept := LiveReplicas(rs, alive);
    forall a | a in Addrs(kept)
      ensures a in alive
    {
      var i :| 0 <= i < |kept| && Addrs(kept)[i] == a;
      assert kept[i] in kept;
    }
    DistinctWithin(Addrs(kept), alive);
  }

  /**
   When every commit succeeds and every target copies the whole file, one repair gives a file its
   full count exactly when a live replica was left and there are enough live nodes.
   */
  lemma RepairSufficesIff(t: Tree, d: Disks, t': Tree, d': Disks, p: Path, targets: seq<Addr>, up: set<Addr>,
                          alive: set<Addr>, replicaCount: int, luck: Luck, err: bool)
    requires OneRepair(t, d, t', d', p, targets, up, alive, replicaCount, luck, err) && Distinct(Addrs(t[p].replicas))
    requires luck.toRecovering && luck.swapList && luck.toComplete
    requires forall a | a in targets :: a in RepairedCopies(d, TaskFor(t, p, alive), up, luck)
    ensures p in t' && (|LiveReplicas(t'[p].replicas, alive)| >= replicaCount <==>
                        LiveReplicas(t[p].replicas, alive) != [] && replicaCount <= |alive|)
  {
    var task := TaskFor(t, p, alive);
    var copies := RepairedCopies(d, task, up, luck);
    RepairLocal(t, d, t', d', p, targets, up, alive, replicaCount, luck, err);
    RepairedList(t, p, task, targets, copies, alive, replicaCount);
    LiveWithinAlive(t'[p].replicas, alive);
    LiveReplicasAre(t'[p].replicas, alive);
    if task.replicas != [] && replicaCount <= |alive| {
      EnoughTargets(targets, task.replicas, alive, replicaCount);
    }
  }
}
