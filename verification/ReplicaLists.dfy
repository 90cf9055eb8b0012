/**
 Replica lists over whole runs of commands as the handlers and the repair loop issue them.

 A create brings the list selectDataNodes chose for the new ID. A repair submits a list it made
 of what it scanned at a path, once the command that marks the path as recovering has been
 applied; what the path leads to by then it does not look at.
 */
module ReplicaLists {
  import opened Paths
  import opened Subtrees
  import opened Metadata
  import opened Invariants
  import opened RepairLists
  import opened Logs
  import opened Identity

  // ----- what is issued -----

  /** A file as a scan sees it, with the nodes then alive. */
  datatype Sight = Sight(path: Path, attrs: Attrs, alive: set<Addr>)

  /** The nodes that have registered, the files there have been, and those marked as recovering since. */
  datatype History = History(known: set<Addr>, seen: set<Sight>, marked: set<Sight>)

  function Sights(m: Meta): set<Sight> {
    set p | p in m.tree && !m.tree[p].isDir :: Sight(p, m.tree[p], set a | a in m.nodes)
  }

  function NoHistory(m: Meta): History {
    History({}, Sights(m), {})
  }

  /** The command marks a file as recovering. */
  predicate Marks(m: Meta, c: Command) {
    c.UpdateStatus? && c.newStatus == RECOVERING && IsFileAt(m.tree, Components(c.path))
  }

  /** The history once the command has been applied in m. */
  function Advance(h: History, m: Meta, c: Command, now: Time): History {
    History(
      h.known + (if c.Heartbeat? then {c.addr} else {}),
      h.seen + Sights(Apply(m, c, now).0),
      h.marked + if Marks(m, c) then set s | s in h.seen && s.path == Components(c.path) else {})
  }

  /** The command is the swap of a repair that scanned s. */
  ghost predicate SwapFor(s: Sight, c: Command) {
    c.UpdateReplicas? && s.path == Components(c.path) && SwapOf(s.attrs, s.alive, c.newReplicas)
  }

  /** A command as a handler or a repair issues it. */
  ghost predicate HandlerIssued(h: History, c: Command) {
    match c
    case CreateFile(_, _, replicas, _, id) =>
      GoodList(replicas) && AllUnder(replicas, DataPath(id)) && AllOn(replicas, h.known)
    case UpdateReplicas(_, _) => exists s | s in h.marked :: SwapFor(s, c)
    case _ => true
  }

  /** The command replaces an existing file's entry. */
  predicate Overwrites(t: Tree, c: Command) {
    c.CreateFile? && c.createMode == OverwriteIfExists && IsFileAt(t, Components(c.path))
  }

  /** A repair's list arrives where its path has come to lead to a file with another ID. */
  ghost predicate Stale(h: History, t: Tree, c: Command) {
    c.UpdateReplicas? && IsFileAt(t, Components(c.path)) &&
    exists s | s in h.marked :: SwapFor(s, c) && s.attrs.fileID != t[Components(c.path)].fileID
  }

  /** The list the command installs was made for another ID than the entry's. */
  ghost predicate Misnames(h: History, t: Tree, c: Command) {
    Overwrites(t, c) || Stale(h, t, c)
  }

  // ----- what lists promise -----

  ghost predicate ListGoodAt(known: set<Addr>, t: Tree, p: Path) {
    IsFileAt(t, p) ==> GoodList(t[p].replicas) && AllOn(t[p].replicas, known)
  }

  /** Every file has a replica, never two on one node, and all on nodes that have registered. */
  ghost predicate ListsGood(known: set<Addr>, t: Tree) {
    forall p {:trigger ListGoodAt(known, t, p)} :: ListGoodAt(known, t, p)
  }

  ghost predicate PathMatchesAt(t: Tree, p: Path) {
    IsFileAt(t, p) ==> AllUnder(t[p].replicas, DataPath(t[p].fileID))
  }

  /** Every file's data lies under its own ID. */
  ghost predicate PathsMatch(t: Tree) {
    forall p {:trigger PathMatchesAt(t, p)} :: PathMatchesAt(t, p)
  }

  /** The same for all files there have been. */
  ghost predicate HistoryGood(h: History) {
    forall s | s in h.seen :: GoodList(s.attrs.replicas) && AllOn(s.attrs.replicas, h.known) && s.alive <= h.known
  }

  ghost predicate HistoryMatches(h: History) {
    forall s | s in h.seen :: AllUnder(s.attrs.replicas, DataPath(s.attrs.fileID))
  }

  /** The history belongs to the state: it has seen the present files, and marked what it has seen. */
  ghost predicate Remembers(h: History, m: Meta) {
    Sights(m) <= h.seen && h.marked <= h.seen
  }

  lemma SeenAt(h: History, m: Meta, p: Path)
    requires Remembers(h, m) && IsFileAt(m.tree, p)
    ensures Sight(p, m.tree[p], set a | a in m.nodes) in h.seen
  {
  }

  lemma AdvanceRemembers(h: History, m: Meta, c: Command, now: Time)
    requires Remembers(h, m)
    ensures Remembers(Advance(h, m, c, now), Apply(m, c, now).0)
  {
  }

  lemma MatchedTree(h: History, m: Meta)
    requires Remembers(h, m) && HistoryMatches(h)
    ensures PathsMatch(m.tree)
  {
    forall p
      ensures PathMatchesAt(m.tree, p)
    {
      if IsFileAt(m.tree, p) {
        SeenAt(h, m, p);
      }
    }
  }

  // ----- one command -----

  /** Where the replica list of the file at p comes from. */
  lemma StepReplicas(t: Tree, c: Command, now: Time, p: Path)
    requires WellFormed(t) && IsFileAt(ApplyTree(t, c, now).0, p)
    ensures var t' := ApplyTree(t, c, now).0;
            var o := Source(t, c, p);
            || (c.CreateFile? && p == Components(c.path) && t'[p].replicas == c.replicas &&
                t'[p].fileID == if IsFileAt(t, p) then t[p].fileID else c.fileID)
            || (c.UpdateReplicas? && p == Components(c.path) && IsFileAt(t, p) && t'[p].replicas == c.newReplicas &&
                c.newReplicas != [] && t'[p].fileID == t[p].fileID)
            || (IsFileAt(t, o) && t'[p].replicas == t[o].replicas && t'[p].fileID == t[o].fileID)
  {
    match c
    case Rename(path, dstPath) =>
      var src, dst := Components(path), Components(dstPath);
      if RenameOutcome(t, src, dst) == Ok {
        RenameOutsideRoot(t, src, dst, now);
        RenameOrigin(t, src, dst, now, p);
      }
    case _ =>
  }

  lemma RenameOutsideRoot(t: Tree, src: Path, dst: Path, now: Time)
    requires WellFormed(t) && RenameOutcome(t, src, dst) == Ok
    ensures IsDirAt(RenamedTree(t, src, dst, now), [])
  {
    var m := Move(t, src, dst);
    TouchedAt(m, Parent(src), now, []);
    TouchedAt(Touch(m, Parent(src), now), Parent(dst), now, []);
    TouchedAt(Touch(Touch(m, Parent(src), now), Parent(dst), now), dst, now, []);
  }

  /** Only a tree command changes the tree. */
  lemma TreeOfApply(m: Meta, c: Command, now: Time)
    ensures Apply(m, c, now).0.tree == ApplyTree(m.tree, c, now).0
  {
  }

  lemma StepKeepsLists(h: History, m: Meta, c: Command, now: Time)
    requires WellFormed(m.tree) && Remembers(h, m) && HistoryGood(h) && HandlerIssued(h, c)
    ensures ListsGood(h.known, ApplyTree(m.tree, c, now).0)
  {
    var t, t' := m.tree, ApplyTree(m.tree, c, now).0;
    forall p
      ensures ListGoodAt(h.known, t', p)
    {
      if IsFileAt(t', p) {
        StepReplicas(t, c, now, p);
        var o := Source(t, c, p);
        if IsFileAt(t, o) && t'[p].replicas == t[o].replicas {
          SeenAt(h, m, o);
        } else if c.UpdateReplicas? {
          var s :| s in h.marked && SwapFor(s, c);
          SwapIs(s.attrs, s.alive, c.newReplicas);
        }
      }
    }
  }

  /** Nodes are listed only once they are known. */
  ghost predicate ListedKnown(h: History, m: Meta) {
    forall a | a in m.nodes :: a in h.known
  }

  lemma StepKeepsHistoryGood(h: History, m: Meta, c: Command, now: Time)
    requires WellFormed(m.tree) && Remembers(h, m) && HistoryGood(h) && HandlerIssued(h, c) && ListedKnown(h, m)
    ensures var h', m' := Advance(h, m, c, now), Apply(m, c, now).0; HistoryGood(h') && ListedKnown(h', m')
  {
    var h', m' := Advance(h, m, c, now), Apply(m, c, now).0;
    StepKeepsLists(h, m, c, now);
    NodesStep(m, c, now);
    TreeOfApply(m, c, now);
    forall s | s in Sights(m')
      ensures GoodList(s.attrs.replicas) && AllOn(s.attrs.replicas, h'.known) && s.alive <= h'.known
    {
      assert ListGoodAt(h.known, m'.tree, s.path);
    }
  }

  lemma NodesStep(m: Meta, c: Command, now: Time)
    ensures forall a | a in Apply(m, c, now).0.nodes :: a in m.nodes || (c.Heartbeat? && a == c.addr)
  {
    if c.RemoveDataNode? {
      RemovedWereListed(m.nodes, c.addr);
    }
  }

  lemma {:induction false} RemovedWereListed(nodes: seq<Addr>, addr: Addr)
    ensures forall a | a in RemoveFirst(nodes, addr) :: a in nodes
  {
    if nodes != [] {
      RemovedWereListed(nodes[1..], addr);
    }
  }

  /**
   Where the lists have matched so far, a repair's swap keeps them so exactly if its path leads to
   nothing, to a directory, or to a file with the ID it scanned.
   */
  lemma SwapKeepsPathsIff(h: History, m: Meta, c: Command, now: Time, s: Sight)
    requires WellFormed(m.tree) && Remembers(h, m) && HistoryMatches(h) && s in h.marked && SwapFor(s, c)
    ensures var t, p := m.tree, Components(c.path);
            PathsMatch(ApplyTree(t, c, now).0) <==> (IsFileAt(t, p) ==> t[p].fileID == s.attrs.fileID)
  {
    var t, p, t' := m.tree, Components(c.path), ApplyTree(m.tree, c, now).0;
    MatchedTree(h, m);
    SwapIs(s.attrs, s.alive, c.newReplicas);
    assert AllUnder(c.newReplicas, DataPath(s.attrs.fileID));
    assert PathMatchesAt(t', p) <==> (IsFileAt(t, p) ==> t[p].fileID == s.attrs.fileID) by {
      assert c.newReplicas[0] in c.newReplicas;
      if IsFileAt(t, p) && PathMatchesAt(t', p) {
        DataPathInjective(s.attrs.fileID, t[p].fileID);
      }
    }
    if PathMatchesAt(t', p) {
      forall q
        ensures PathMatchesAt(t', q)
      {
        assert PathMatchesAt(t, q);
      }
    }
  }

  lemma StepKeepsPaths(h: History, m: Meta, c: Command, now: Time)
    requires WellFormed(m.tree) && Remembers(h, m) && HistoryMatches(h)
    requires HandlerIssued(h, c) && !Misnames(h, m.tree, c)
    ensures PathsMatch(ApplyTree(m.tree, c, now).0)
  {
    var t, t' := m.tree, ApplyTree(m.tree, c, now).0;
    MatchedTree(h, m);
    if c.UpdateReplicas? {
      var s :| s in h.marked && SwapFor(s, c);
      SwapKeepsPathsIff(h, m, c, now, s);
    } else {
      forall p
        ensures PathMatchesAt(t', p)
      {
        if IsFileAt(t', p) {
          StepReplicas(t, c, now, p);
          assert PathMatchesAt(t, Source(t, c, p)) && PathMatchesAt(t, p);
          if c.CreateFile? && IsFileAt(t, p) && p == Components(c.path) {
            assert t' == t;
          }
        }
      }
    }
  }

  lemma StepKeepsMatches(h: History, m: Meta, c: Command, now: Time)
    requires WellFormed(m.tree) && Remembers(h, m) && HistoryMatches(h)
    requires HandlerIssued(h, c) && !Misnames(h, m.tree, c)
    ensures HistoryMatches(Advance(h, m, c, now))
  {
    StepKeepsPaths(h, m, c, now);
    TreeOfApply(m, c, now);
    var m' := Apply(m, c, now).0;
    forall s | s in Sights(m')
      ensures AllUnder(s.attrs.replicas, DataPath(s.attrs.fileID))
    {
      assert PathMatchesAt(m'.tree, s.path);
    }
  }

  /** An overwrite keeps the old ID but installs paths under the new one. */
  lemma OverwriteBreaksPaths(h: History, t: Tree, c: Command, now: Time)
    requires WellFormed(t) && HandlerIssued(h, c) && Overwrites(t, c) && !Live(t, c.fileID)
    ensures !PathsMatch(ApplyTree(t, c, now).0)
  {
    var p := Components(c.path);
    var t' := ApplyTree(t, c, now).0;
    assert Hangs(t, p) && p != [];
    assert IsFileAt(t', p) && t'[p].replicas == c.replicas && t'[p].fileID == t[p].fileID;
    assert c.replicas[0] in c.replicas;
    if PathMatchesAt(t', p) {
      DataPathInjective(c.fileID, t[p].fileID);
      assert false;
    }
  }

  /** Where the lists have matched so far, a command breaks that exactly if it misnames. */
  lemma MisnamesIff(h: History, m: Meta, c: Command, now: Time)
    requires WellFormed(m.tree) && Remembers(h, m) && HistoryMatches(h) && HandlerIssued(h, c)
    requires CarriesId(c) ==> !Live(m.tree, c.fileID)
    ensures PathsMatch(ApplyTree(m.tree, c, now).0) <==> !Misnames(h, m.tree, c)
  {
    if Overwrites(m.tree, c) {
      OverwriteBreaksPaths(h, m.tree, c, now);
    } else if Stale(h, m.tree, c) {
      var s :| s in h.marked && SwapFor(s, c) && s.attrs.fileID != m.tree[Components(c.path)].fileID;
      SwapKeepsPathsIff(h, m, c, now, s);
    } else {
      StepKeepsPaths(h, m, c, now);
    }
  }

  // ----- whole runs -----

  function HistoryAt(start: Time, log: Log, i: nat): History
    requires i <= |log|
  {
    if i == 0 then NoHistory(InitialMeta(start))
    else Advance(HistoryAt(start, log, i - 1), StateAt(start, log, i - 1), log[i - 1].cmd, log[i - 1].now)
  }

  /** Every command is as a handler or a repair issues it, given the run so far. */
  ghost predicate HandlerLog(start: Time, log: Log) {
    forall i: nat {:trigger IssuedAt(start, log, i)} | i < |log| :: IssuedAt(start, log, i)
  }

  ghost predicate IssuedAt(start: Time, log: Log, i: nat)
    requires i < |log|
  {
    HandlerIssued(HistoryAt(start, log, i), log[i].cmd)
  }

  ghost predicate MisnamesAt(start: Time, log: Log, i: nat)
    requires i < |log|
  {
    Misnames(HistoryAt(start, log, i), StateAt(start, log, i).tree, log[i].cmd)
  }

  lemma TreeIsSound(start: Time, log: Log, i: nat)
    requires i <= |log|
    ensures WellFormed(StateAt(start, log, i).tree)
  {
    StatesAreSound(start, log, i);
  }

  lemma {:induction false} HistoryRemembers(start: Time, log: Log, i: nat)
    requires i <= |log|
    ensures Remembers(HistoryAt(start, log, i), StateAt(start, log, i))
  {
    if i == 0 {
      assert StateAt(start, log, 0) == InitialMeta(start);
    } else {
      HistoryRemembers(start, log, i - 1);
      AdvanceRemembers(HistoryAt(start, log, i - 1), StateAt(start, log, i - 1), log[i - 1].cmd, log[i - 1].now);
      StateStep(start, log, i - 1);
    }
  }

  /** Nodes do not get on the list without having sent a heartbeat. */
  lemma {:induction false} ListedAreKnown(start: Time, log: Log, i: nat)
    requires i <= |log|
    ensures ListedKnown(HistoryAt(start, log, i), StateAt(start, log, i))
  {
    if i == 0 {
      assert StateAt(start, log, 0) == InitialMeta(start);
    } else {
      ListedAreKnown(start, log, i - 1);
      StateStep(start, log, i - 1);
      NodesStep(StateAt(start, log, i - 1), log[i - 1].cmd, log[i - 1].now);
    }
  }

  lemma {:induction false} HistoryStaysGood(start: Time, log: Log, i: nat)
    requires HandlerLog(start, log) && i <= |log|
    ensures HistoryGood(HistoryAt(start, log, i))
  {
    if i > 0 {
      var m, e := StateAt(start, log, i - 1), log[i - 1];
      HistoryStaysGood(start, log, i - 1);
      HistoryRemembers(start, log, i - 1);
      ListedAreKnown(start, log, i - 1);
      TreeIsSound(start, log, i - 1);
      assert IssuedAt(start, log, i - 1);
      StepKeepsHistoryGood(HistoryAt(start, log, i - 1), m, e.cmd, e.now);
    }
  }

  /** Each file always has a replica, never two on one node, and only on nodes that have registered. */
  lemma ListsStayGood(start: Time, log: Log, i: nat)
    requires HandlerLog(start, log) && i <= |log|
    ensures ListsGood(HistoryAt(start, log, i).known, StateAt(start, log, i).tree)
  {
    var h, m := HistoryAt(start, log, i), StateAt(start, log, i);
    HistoryStaysGood(start, log, i);
    HistoryRemembers(start, log, i);
    forall p
      ensures ListGoodAt(h.known, m.tree, p)
    {
      if IsFileAt(m.tree, p) {
        SeenAt(h, m, p);
      }
    }
  }

  /** None of the first i commands misnames. */
  ghost predicate NoneMisnames(start: Time, log: Log, i: nat)
    requires i <= |log|
  {
    forall j: nat | j < i :: !MisnamesAt(start, log, j)
  }

  lemma {:induction false} MatchesSoFar(start: Time, log: Log, i: nat)
    requires HandlerLog(start, log) && i <= |log|
    requires NoneMisnames(start, log, i)
    ensures HistoryMatches(HistoryAt(start, log, i))
  {
    if i > 0 {
      var h, m, e := HistoryAt(start, log, i - 1), StateAt(start, log, i - 1), log[i - 1];
      assert NoneMisnames(start, log, i - 1);
      MatchesSoFar(start, log, i - 1);
      HistoryRemembers(start, log, i - 1);
      TreeIsSound(start, log, i - 1);
      assert IssuedAt(start, log, i - 1) && !MisnamesAt(start, log, i - 1);
      StepKeepsMatches(h, m, e.cmd, e.now);
    }
  }

  /** The first command that misnames leaves a state in which the paths do not match. */
  lemma FirstMisnameShows(start: Time, log: Log, i: nat)
    requires HandlerLog(start, log) && FreshIds(log) && i < |log|
    requires MisnamesAt(start, log, i) && NoneMisnames(start, log, i)
    ensures !PathsMatch(StateAt(start, log, i + 1).tree)
  {
    MatchesSoFar(start, log, i);
    HistoryRemembers(start, log, i);
    TreeIsSound(start, log, i);
    StateStep(start, log, i);
    assert IssuedAt(start, log, i);
    if CarriesId(log[i].cmd) {
      NotYetLive(start, log, i);
    }
    MisnamesIff(HistoryAt(start, log, i), StateAt(start, log, i), log[i].cmd, log[i].now);
  }

  lemma {:induction false} FirstMisname(start: Time, log: Log, i: nat) returns (k: nat)
    requires i < |log| && MisnamesAt(start, log, i)
    ensures k <= i && MisnamesAt(start, log, k) && NoneMisnames(start, log, k)
  {
    if j: nat :| j < i && MisnamesAt(start, log, j) {
      k := FirstMisname(start, log, j);
    } else {
      k := i;
    }
  }

  /**
   Data lies under the file's own ID throughout a run exactly when the run overwrites no file and
   no repair's swap arrives where its path leads to a file with another ID than scanned.
   */
  lemma PathsMatchIff(start: Time, log: Log)
    requires HandlerLog(start, log) && FreshIds(log)
    ensures (forall i | 0 <= i <= |log| :: PathsMatch(StateAt(start, log, i).tree)) <==>
            NoneMisnames(start, log, |log|)
  {
    if NoneMisnames(start, log, |log|) {
      forall i | 0 <= i <= |log|
        ensures PathsMatch(StateAt(start, log, i).tree)
      {
        assert NoneMisnames(start, log, i);
        MatchesSoFar(start, log, i);
        HistoryRemembers(start, log, i);
        MatchedTree(HistoryAt(start, log, i), StateAt(start, log, i));
      }
    } else {
      var i: nat :| i < |log| && MisnamesAt(start, log, i);
      var k := FirstMisname(start, log, i);
      FirstMisnameShows(start, log, k);
      assert !PathsMatch(StateAt(start, log, k + 1).tree);
    }
  }

  // ----- whose data a path is -----

  ghost predicate ApartAt(t: Tree, p: Path, q: Path) {
    IsFileAt(t, p) && IsFileAt(t, q) && p != q ==>
      forall r | r in t[q].replicas :: r.remotePath != DataPath(t[p].fileID)
  }

  /** No file's list names data under the ID of another file. */
  ghost predicate DataApart(t: Tree) {
    forall p, q {:trigger ApartAt(t, p, q)} :: ApartAt(t, p, q)
  }

  ghost predicate NamesApart(id: FileId, id': FileId, rs: seq<Replica>) {
    id != id' ==> forall r | r in rs :: r.remotePath != DataPath(id)
  }

  /** The same for all files there have been, at any time. */
  ghost predicate SightsApart(h: History) {
    forall s, s' | s in h.seen && s' in h.seen :: NamesApart(s.attrs.fileID, s'.attrs.fileID, s'.attrs.replicas)
  }

  ghost predicate PathIssued(ids: set<FileId>, path: string) {
    exists id | id in ids :: path == DataPath(id)
  }

  /** IDs and replica paths use IDs that have been issued. */
  ghost predicate HistoryIssued(h: History, ids: set<FileId>) {
    forall s | s in h.seen ::
      s.attrs.fileID in ids && s.path != [] && forall r | r in s.attrs.replicas :: PathIssued(ids, r.remotePath)
  }

  lemma ApartTree(h: History, m: Meta)
    requires Remembers(h, m) && SightsApart(h) && UniqueIds(m.tree) && IsDirAt(m.tree, [])
    ensures DataApart(m.tree)
  {
    forall p, q
      ensures ApartAt(m.tree, p, q)
    {
      if IsFileAt(m.tree, p) && IsFileAt(m.tree, q) && p != q {
        SeenAt(h, m, p);
        SeenAt(h, m, q);
        assert SameId(m.tree, p, q);
        assert NamesApart(m.tree[p].fileID, m.tree[q].fileID, m.tree[q].replicas);
      }
    }
  }

  /** A file with this ID has been seen, and the list adds to its replicas only ones under the ID. */
  ghost predicate FromSight(h: History, s: Sight, id: FileId, rs: seq<Replica>) {
    s in h.seen && s.attrs.fileID == id && forall r | r in rs :: r in s.attrs.replicas || r.remotePath == DataPath(id)
  }

  ghost predicate SeenId(h: History, id: FileId) {
    exists s :: s in h.seen && s.attrs.fileID == id
  }

  /** How a file with this ID and list can be seen once c has been applied in t. */
  ghost predicate Explained(h: History, t: Tree, c: Command, id: FileId, rs: seq<Replica>) {
    || (exists s :: FromSight(h, s, id, rs))
    || (Overwrites(t, c) && SeenId(h, id) && rs == c.replicas)
    || (c.CreateFile? && !IsFileAt(t, Components(c.path)) && id == c.fileID && rs == c.replicas)
  }

  lemma NewSightExplained(h: History, m: Meta, c: Command, now: Time, p: Path)
    requires WellFormed(m.tree) && Remembers(h, m) && HandlerIssued(h, c) && !Stale(h, m.tree, c)
    requires IsFileAt(ApplyTree(m.tree, c, now).0, p)
    ensures var a := ApplyTree(m.tree, c, now).0[p]; Explained(h, m.tree, c, a.fileID, a.replicas)
  {
    var t, a, o := m.tree, ApplyTree(m.tree, c, now).0[p], Source(m.tree, c, p);
    StepReplicas(t, c, now, p);
    if IsFileAt(t, o) {
      SeenAt(h, m, o);
      var s := Sight(o, t[o], set x | x in m.nodes);
      if a.replicas == t[o].replicas && a.fileID == t[o].fileID {
        assert FromSight(h, s, a.fileID, a.replicas);
      } else if c.UpdateReplicas? {
        var s' :| s' in h.marked && SwapFor(s', c);
        SwapIs(s'.attrs, s'.alive, c.newReplicas);
        assert FromSight(h, s', a.fileID, a.replicas);
      }
    }
  }

  lemma ExplainedApart(h: History, ids: set<FileId>, t: Tree, c: Command, id: FileId, rs: seq<Replica>, id': FileId,
                       rs': seq<Replica>)
    requires SightsApart(h) && HistoryIssued(h, ids) && HandlerIssued(h, c) && (CarriesId(c) ==> c.fileID !in ids)
    requires Explained(h, t, c, id, rs) && Explained(h, t, c, id', rs')
    ensures NamesApart(id, id', rs')
  {
    if id != id' {
      forall r | r in rs'
        ensures r.remotePath != DataPath(id)
      {
        if r.remotePath == DataPath(id) {
          NameTraced(h, ids, t, c, id, id', rs', r);
        }
      }
    }
  }

  lemma NameTraced(h: History, ids: set<FileId>, t: Tree, c: Command, id: FileId, id': FileId,
                    rs': seq<Replica>, r: Replica)
    requires SightsApart(h) && HistoryIssued(h, ids) && HandlerIssued(h, c) && (CarriesId(c) ==> c.fileID !in ids)
    requires Explained(h, t, c, id', rs') && r in rs' && r.remotePath == DataPath(id)
    requires SeenId(h, id) || (c.CreateFile? && !IsFileAt(t, Components(c.path)) && id == c.fileID)
    ensures id == id'
  {
    if s' :| FromSight(h, s', id', rs') {
      if r in s'.attrs.replicas {
        if SeenId(h, id) {
          var s :| s in h.seen && s.attrs.fileID == id;
          assert NamesApart(id, id', s'.attrs.replicas);
        } else {
          var x :| x in ids && r.remotePath == DataPath(x);
          DataPathInjective(x, id);
        }
      } else {
        DataPathInjective(id, id');
      }
    } else {
      DataPathInjective(c.fileID, id);
    }
  }

  lemma StepKeepsApart(h: History, ids: set<FileId>, m: Meta, c: Command, now: Time)
    requires WellFormed(m.tree) && Remembers(h, m) && HandlerIssued(h, c) && !Stale(h, m.tree, c)
    requires SightsApart(h) && HistoryIssued(h, ids) && (CarriesId(c) ==> c.fileID !in ids)
    ensures SightsApart(Advance(h, m, c, now))
  {
    TreeOfApply(m, c, now);
    var h' := Advance(h, m, c, now);
    forall s | s in h'.seen
      ensures Explained(h, m.tree, c, s.attrs.fileID, s.attrs.replicas)
    {
      if s in h.seen {
        assert FromSight(h, s, s.attrs.fileID, s.attrs.replicas);
      } else {
        NewSightExplained(h, m, c, now, s.path);
      }
    }
    forall s, s' | s in h'.seen && s' in h'.seen
      ensures NamesApart(s.attrs.fileID, s'.attrs.fileID, s'.attrs.replicas)
    {
      ExplainedApart(h, ids, m.tree, c, s.attrs.fileID, s.attrs.replicas, s'.attrs.fileID, s'.attrs.replicas);
    }
  }

  lemma StepKeepsIssued(h: History, ids: set<FileId>, more: set<FileId>, m: Meta, c: Command, now: Time)
    requires WellFormed(m.tree) && Remembers(h, m) && HandlerIssued(h, c) && HistoryIssued(h, ids)
    requires ids <= more && (CarriesId(c) ==> c.fileID in more)
    ensures HistoryIssued(Advance(h, m, c, now), more)
  {
    TreeOfApply(m, c, now);
    ApplyKeepsTree(m.tree, c, now);
    var h', t' := Advance(h, m, c, now), ApplyTree(m.tree, c, now).0;
    forall s | s in h'.seen
      ensures s.attrs.fileID in more && s.path != []
      ensures forall r | r in s.attrs.replicas :: PathIssued(more, r.remotePath)
    {
      if s in h.seen {
        IssuedMore(ids, more, s.attrs.replicas);
      } else {
        NewSightIssued(h, ids, more, m, c, now, s.path);
      }
    }
  }

  lemma IssuedMore(ids: set<FileId>, more: set<FileId>, rs: seq<Replica>)
    requires ids <= more && forall r | r in rs :: PathIssued(ids, r.remotePath)
    ensures forall r | r in rs :: PathIssued(more, r.remotePath)
  {
    forall r | r in rs
      ensures PathIssued(more, r.remotePath)
    {
      var id :| id in ids && r.remotePath == DataPath(id);
      assert id in more;
    }
  }

  lemma NewSightIssued(h: History, ids: set<FileId>, more: set<FileId>, m: Meta, c: Command, now: Time, p: Path)
    requires WellFormed(m.tree) && Remembers(h, m) && HandlerIssued(h, c) && HistoryIssued(h, ids)
    requires ids <= more && (CarriesId(c) ==> c.fileID in more) && IsFileAt(ApplyTree(m.tree, c, now).0, p)
    ensures var a := ApplyTree(m.tree, c, now).0[p];
            a.fileID in more && forall r | r in a.replicas :: PathIssued(more, r.remotePath)
  {
    var t, a, o := m.tree, ApplyTree(m.tree, c, now).0[p], Source(m.tree, c, p);
    StepReplicas(t, c, now, p);
    if IsFileAt(t, o) {
      SeenAt(h, m, o);
      IssuedMore(ids, more, t[o].replicas);
    }
    if c.UpdateReplicas? && a.replicas == c.newReplicas {
      var s :| s in h.marked && SwapFor(s, c);
      SwapIs(s.attrs, s.alive, c.newReplicas);
      IssuedMore(ids, more, s.attrs.replicas);
    }
  }

  function IssuedIds(log: Log): set<FileId> {
    set e | e in log && CarriesId(e.cmd) :: e.cmd.fileID
  }

  lemma IssuedGrows(log: Log, i: nat)
    requires i < |log|
    ensures IssuedIds(log[..i + 1]) == IssuedIds(log[..i]) + if CarriesId(log[i].cmd) then {log[i].cmd.fileID} else {}
    ensures FreshIds(log) && CarriesId(log[i].cmd) ==> log[i].cmd.fileID !in IssuedIds(log[..i])
  {
    assert log[..i + 1] == log[..i] + [log[i]];
  }

  lemma IssuedOnward(log: Log, i: nat)
    requires 0 < i <= |log|
    ensures IssuedIds(log[..i - 1]) <= IssuedIds(log[..i])
    ensures CarriesId(log[i - 1].cmd) ==> log[i - 1].cmd.fileID in IssuedIds(log[..i])
  {
    IssuedGrows(log, i - 1);
  }

  /** None of the first i commands is a swap of a repair that scanned another file. */
  ghost predicate NoneStale(start: Time, log: Log, i: nat)
    requires i <= |log|
  {
    forall j: nat | j < i :: !StaleAt(start, log, j)
  }

  ghost predicate StaleAt(start: Time, log: Log, i: nat)
    requires i < |log|
  {
    Stale(HistoryAt(start, log, i), StateAt(start, log, i).tree, log[i].cmd)
  }

  lemma {:induction false} HistoryIsIssued(start: Time, log: Log, i: nat)
    requires HandlerLog(start, log) && i <= |log|
    ensures HistoryIssued(HistoryAt(start, log, i), IssuedIds(log[..i]))
  {
    if i > 0 {
      var h, m, e := HistoryAt(start, log, i - 1), StateAt(start, log, i - 1), log[i - 1];
      HistoryIsIssued(start, log, i - 1);
      HistoryRemembers(start, log, i - 1);
      TreeIsSound(start, log, i - 1);
      assert IssuedAt(start, log, i - 1);
      IssuedOnward(log, i);
      StepKeepsIssued(h, IssuedIds(log[..i - 1]), IssuedIds(log[..i]), m, e.cmd, e.now);
    }
  }

  lemma {:induction false} SightsStayApart(start: Time, log: Log, i: nat)
    requires HandlerLog(start, log) && FreshIds(log) && i <= |log| && NoneStale(start, log, i)
    ensures SightsApart(HistoryAt(start, log, i))
  {
    if i > 0 {
      var h, m, e := HistoryAt(start, log, i - 1), StateAt(start, log, i - 1), log[i - 1];
      assert NoneStale(start, log, i - 1);
      SightsStayApart(start, log, i - 1);
      HistoryRemembers(start, log, i - 1);
      HistoryIsIssued(start, log, i - 1);
      TreeIsSound(start, log, i - 1);
      IssuedGrows(log, i - 1);
      assert IssuedAt(start, log, i - 1) && !StaleAt(start, log, i - 1);
      StepKeepsApart(h, IssuedIds(log[..i - 1]), m, e.cmd, e.now);
    }
  }

  /**
   With fresh IDs and no stale swap no file's list ever names data under another file's ID,
   overwrites included.
   */
  lemma DataStaysApart(start: Time, log: Log, i: nat)
    requires HandlerLog(start, log) && FreshIds(log) && i <= |log| && NoneStale(start, log, i)
    ensures DataApart(StateAt(start, log, i).tree)
  {
    SightsStayApart(start, log, i);
    HistoryRemembers(start, log, i);
    TreeIsSound(start, log, i);
    IdsStayUnique(start, log, i);
    ApartTree(HistoryAt(start, log, i), StateAt(start, log, i));
  }

  /**
   Where the lists have matched so far, a repair's swap makes a list name another file's data
   exactly if it arrives at a file while another one has the ID it scanned.
   */
  lemma SwapKeepsApartIff(h: History, m: Meta, c: Command, now: Time, s: Sight)
    requires WellFormed(m.tree) && UniqueIds(m.tree) && Remembers(h, m) && HistoryMatches(h)
    requires s in h.marked && SwapFor(s, c)
    ensures var t, p := m.tree, Components(c.path);
            DataApart(ApplyTree(t, c, now).0) <==>
            (IsFileAt(t, p) ==> forall q | IsFileAt(t, q) && q != p :: t[q].fileID != s.attrs.fileID)
  {
    var t, p, t' := m.tree, Components(c.path), ApplyTree(m.tree, c, now).0;
    MatchedTree(h, m);
    SwapIs(s.attrs, s.alive, c.newReplicas);
    assert c.newReplicas[0] in c.newReplicas;
    assert AllUnder(c.newReplicas, DataPath(s.attrs.fileID));
    forall q, u
      ensures q != p || u == p || !IsFileAt(t, p) ==> ApartAt(t', u, q) || !IsFileAt(t', q)
      ensures IsFileAt(t, p) && q == p && u != p ==>
                (ApartAt(t', u, q) <==> (IsFileAt(t, u) ==> t[u].fileID != s.attrs.fileID))
    {
      SwapApartAt(t, t', c, s, now, p, q, u);
    }
    if DataApart(t') && IsFileAt(t, p) {
      forall q | IsFileAt(t, q) && q != p
        ensures t[q].fileID != s.attrs.fileID
      {
        assert ApartAt(t', q, p);
      }
    }
  }

  lemma SwapApartAt(t: Tree, t': Tree, c: Command, s: Sight, now: Time, p: Path, q: Path, u: Path)
    requires WellFormed(t) && UniqueIds(t) && PathsMatch(t) && SwapFor(s, c) && p == Components(c.path)
    requires t' == ApplyTree(t, c, now).0
    requires c.newReplicas != [] && AllUnder(c.newReplicas, DataPath(s.attrs.fileID))
    ensures q != p || u == p || !IsFileAt(t, p) ==> ApartAt(t', u, q) || !IsFileAt(t', q)
    ensures IsFileAt(t, p) && q == p && u != p ==>
              (ApartAt(t', u, q) <==> (IsFileAt(t, u) ==> t[u].fileID != s.attrs.fileID))
  {
    assert PathMatchesAt(t, q) && SameId(t, u, q);
    assert c.newReplicas[0] in c.newReplicas;
    if IsFileAt(t, u) && IsFileAt(t, q) && u != q {
      if DataPath(t[u].fileID) == DataPath(t[q].fileID) {
        DataPathInjective(t[u].fileID, t[q].fileID);
      }
      if DataPath(t[u].fileID) == DataPath(s.attrs.fileID) {
        DataPathInjective(t[u].fileID, s.attrs.fileID);
      }
    }
  }
}
