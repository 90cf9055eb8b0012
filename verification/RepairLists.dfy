/** Replica lists, and the lists a repair makes of them. */
module RepairLists {
  import opened Metadata
  import opened Invariants

  const DATA_DIR := "/data/"

  function DataPath(id: FileId): string {
    DATA_DIR + id
  }

  lemma DataPathInjective(a: FileId, b: FileId)
    requires DataPath(a) == DataPath(b)
    ensures a == b
  {
    assert DataPath(a)[|DATA_DIR|..] == a && DataPath(b)[|DATA_DIR|..] == b;
  }

  function Addrs(rs: seq<Replica>): seq<Addr> {
    seq(|rs|, i requires 0 <= i < |rs| => rs[i].addr)
  }

  ghost function AddrSet(rs: seq<Replica>): set<Addr> {
    set r | r in rs :: r.addr
  }

  /** At least one replica, and no DataNode twice. */
  ghost predicate GoodList(rs: seq<Replica>) {
    rs != [] && Distinct(Addrs(rs))
  }

  ghost predicate AllUnder(rs: seq<Replica>, path: string) {
    forall r | r in rs :: r.remotePath == path
  }

  ghost predicate AllOn(rs: seq<Replica>, known: set<Addr>) {
    forall r | r in rs :: r.addr in known
  }

  lemma LastAddrNew(rs: seq<Replica>)
    requires rs != [] && Distinct(Addrs(rs))
    ensures forall r | r in rs[..|rs| - 1] :: r.addr != rs[|rs| - 1].addr
  {
    var n := |rs| - 1;
    forall r | r in rs[..n]
      ensures r.addr != rs[n].addr
    {
      var j :| 0 <= j < n && rs[j] == r;
      assert Addrs(rs)[j] != Addrs(rs)[n];
    }
  }

  lemma AppendDistinct(rs: seq<Replica>, r: Replica)
    requires Distinct(Addrs(rs)) && forall x | x in rs :: x.addr != r.addr
    ensures Distinct(Addrs(rs + [r]))
  {
    assert Addrs(rs + [r]) == Addrs(rs) + [r.addr];
    forall i | 0 <= i < |rs|
      ensures Addrs(rs)[i] != r.addr
    {
      assert rs[i] in rs;
    }
  }

  lemma DistinctJoin(xs: seq<Replica>, ys: seq<Replica>)
    requires Distinct(Addrs(xs)) && Distinct(Addrs(ys))
    requires forall y | y in ys :: y.addr !in AddrSet(xs)
    ensures Distinct(Addrs(xs + ys))
  {
    var zs := xs + ys;
    assert Addrs(zs) == Addrs(xs) + Addrs(ys);
    forall i, j | 0 <= i < |xs| && 0 <= j < |ys|
      ensures xs[i].addr != ys[j].addr
    {
      assert ys[j] in ys && xs[i] in xs && xs[i].addr in AddrSet(xs);
    }
  }

  // ----- the live replicas -----

  /** The replicas on nodes that are alive, in order. */
  function LiveReplicas(rs: seq<Replica>, alive: set<Addr>): seq<Replica> {
    if rs == [] then []
    else
      var n := |rs| - 1;
      LiveReplicas(rs[..n], alive) + if rs[n].addr in alive then [rs[n]] else []
  }

  lemma {:induction false} LiveReplicasAre(rs: seq<Replica>, alive: set<Addr>)
    ensures forall r :: r in LiveReplicas(rs, alive) <==> r in rs && r.addr in alive
    ensures (forall r | r in rs :: r.addr in alive) ==> LiveReplicas(rs, alive) == rs
  {
    if rs != [] {
      var n := |rs| - 1;
      LiveReplicasAre(rs[..n], alive);
      assert rs == rs[..n] + [rs[n]];
    }
  }

  /** Replica by replica, in order. */
  lemma {:induction false} LiveReplicasInOrder(some: seq<Replica>, more: seq<Replica>, alive: set<Addr>)
    ensures LiveReplicas(some + more, alive) == LiveReplicas(some, alive) + LiveReplicas(more, alive)
    ensures |some| == 1 ==> LiveReplicas(some, alive) == if some[0].addr in alive then some else []
  {
    assert |some| == 1 ==> some[..0] == [] && some == [some[0]];
    if more == [] {
      assert some + more == some;
    } else {
      var n := |more| - 1;
      LiveReplicasInOrder(some, more[..n], alive);
      assert (some + more)[..|some| + n] == some + more[..n];
    }
  }

  lemma {:induction false} LiveReplicasDistinct(rs: seq<Replica>, alive: set<Addr>)
    requires Distinct(Addrs(rs))
    ensures Distinct(Addrs(LiveReplicas(rs, alive)))
  {
    if rs != [] {
      var n := |rs| - 1;
      var live := LiveReplicas(rs[..n], alive);
      assert Addrs(rs[..n]) == Addrs(rs)[..n];
      LiveReplicasDistinct(rs[..n], alive);
      LiveReplicasAre(rs[..n], alive);
      LastAddrNew(rs);
      AppendDistinct(live, rs[n]);
      assert LiveReplicas(rs, alive) == if rs[n].addr in alive then live + [rs[n]] else live;
    }
  }

  // ----- targets and copies -----

  /** Up to count distinct live nodes that hold no replica yet; fewer only when there are no more. */
  ghost predicate TargetsFor(targets: seq<Addr>, holders: seq<Replica>, alive: set<Addr>, count: int) {
    && Distinct(targets)
    && (forall a | a in targets :: a in alive && a !in AddrSet(holders))
    && |targets| <= (if count < 0 then 0 else count)
    && (|targets| < count ==> forall a | a in alive && a !in AddrSet(holders) :: a in targets)
  }

  /** The targets whose copy succeeded, as replicas under the file's own path. */
  function Copied(targets: seq<Addr>, copies: set<Addr>, id: FileId): seq<Replica> {
    if targets == [] then []
    else
      var n := |targets| - 1;
      Copied(targets[..n], copies, id) + if targets[n] in copies then [Replica(targets[n], DataPath(id))] else []
  }

  lemma {:induction false} CopiedAre(targets: seq<Addr>, copies: set<Addr>, id: FileId)
    ensures forall r :: r in Copied(targets, copies, id) <==>
              r.addr in targets && r.addr in copies && r.remotePath == DataPath(id)
    ensures |Copied(targets, copies, id)| <= |targets|
    ensures (forall a | a in targets :: a in copies) ==> |Copied(targets, copies, id)| == |targets|
  {
    if targets != [] {
      var n := |targets| - 1;
      CopiedAre(targets[..n], copies, id);
      assert targets == targets[..n] + [targets[n]];
    }
  }

  lemma {:induction false} CopiedDistinct(targets: seq<Addr>, copies: set<Addr>, id: FileId)
    requires Distinct(targets)
    ensures Distinct(Addrs(Copied(targets, copies, id)))
  {
    if targets != [] {
      var n := |targets| - 1;
      CopiedDistinct(targets[..n], copies, id);
      CopiedAre(targets[..n], copies, id);
      var rs := Copied(targets[..n], copies, id);
      AppendDistinct(rs, Replica(targets[n], DataPath(id)));
      var more := rs + [Replica(targets[n], DataPath(id))];
      assert Copied(targets, copies, id) == if targets[n] in copies then more else rs;
    }
  }

  // ----- the list a repair submits -----

  /** Complete, as the scan tests it, and with too few live replicas. */
  predicate NeedsRepair(a: Attrs, alive: set<Addr>, replicaCount: int) {
    && !a.isDir && a.status != PENDING && a.status != RECOVERING
    && |LiveReplicas(a.replicas, alive)| < replicaCount
  }

  /** The list for the file a when these targets are chosen and these copies succeed. */
  function SwapList(a: Attrs, alive: set<Addr>, targets: seq<Addr>, copies: set<Addr>): seq<Replica> {
    LiveReplicas(a.replicas, alive) + Copied(targets, copies, a.fileID)
  }

  ghost predicate SwapBy(
    a: Attrs, alive: set<Addr>, rs: seq<Replica>, replicaCount: int, targets: seq<Addr>, copies: set<Addr>)
  {
    var live := LiveReplicas(a.replicas, alive);
    && NeedsRepair(a, alive, replicaCount) && live != [] && targets != []
    && TargetsFor(targets, live, alive, replicaCount - |live|)
    && rs == SwapList(a, alive, targets, copies)
  }

  /** rs is what some repair makes of the file a, scanned with these nodes alive. */
  ghost predicate SwapOf(a: Attrs, alive: set<Addr>, rs: seq<Replica>) {
    exists replicaCount, targets, copies :: SwapBy(a, alive, rs, replicaCount, targets, copies)
  }

  /** Such a list is good, on live nodes, and adds to the file's replicas only ones under the file's own ID. */
  lemma SwapIs(a: Attrs, alive: set<Addr>, rs: seq<Replica>)
    requires SwapOf(a, alive, rs)
    ensures Distinct(Addrs(a.replicas)) ==> GoodList(rs)
    ensures rs != [] && forall r | r in rs :: r.addr in alive && (r in a.replicas || r.remotePath == DataPath(a.fileID))
  {
    var replicaCount, targets, copies :| SwapBy(a, alive, rs, replicaCount, targets, copies);
    var live, added := LiveReplicas(a.replicas, alive), Copied(targets, copies, a.fileID);
    LiveReplicasAre(a.replicas, alive);
    CopiedAre(targets, copies, a.fileID);
    if Distinct(Addrs(a.replicas)) {
      LiveReplicasDistinct(a.replicas, alive);
      CopiedDistinct(targets, copies, a.fileID);
      DistinctJoin(live, added);
    }
  }
}
