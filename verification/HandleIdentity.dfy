/**
 Which file an open handle works on while commands go on: WriteAt goes to the replicas the handle
 was opened with, Truncate to those recorded now for the path it was opened by.
 */
module HandleIdentity {
  import Options
  import opened Paths
  import opened Metadata
  import opened Invariants
  import opened RepairLists
  import opened Logs
  import opened Identity
  import opened ReplicaLists
  import opened DataNodes
  import opened Clusters

  /** Only data stored under the ID changes. */
  ghost predicate ChangesOnly(d: Disks, d': Disks, id: FileId) {
    forall r | FileOn(d', r) != FileOn(d, r) :: r.remotePath == DataPath(id)
  }

  /** Sending the operation to these replicas changes something. */
  ghost predicate Effective(d: Disks, op: Op, rs: seq<Replica>, can: set<Replica>) {
    exists r :: r in rs && r in can && FileOn(d, r) != Options.Some(OnBytes(op, BytesOn(d, r)))
  }

  /** An operation sent to replicas under one ID changes data under that ID only. */
  lemma SentUnder(d: Disks, op: Op, rs: seq<Replica>, can: set<Replica>, id: FileId)
    requires Distinct(Addrs(rs)) && AllUnder(rs, DataPath(id)) && forall r | r in can :: r.addr in d
    ensures ChangesOnly(d, Sent(d, op, rs, can), id)
    ensures Effective(d, op, rs, can) ==>
              forall id' | ChangesOnly(d, Sent(d, op, rs, can), id') :: id' == id
  {
    forall r
      ensures FileOn(Sent(d, op, rs, can), r) ==
              if r in rs && r in can then Options.Some(OnBytes(op, BytesOn(d, r))) else FileOn(d, r)
    {
      SentAt(d, op, rs, can, r);
    }
    if Effective(d, op, rs, can) {
      var r :| r in rs && r in can && FileOn(d, r) != Options.Some(OnBytes(op, BytesOn(d, r)));
      forall id' | ChangesOnly(d, Sent(d, op, rs, can), id')
        ensures id' == id
      {
        DataPathInjective(id', id);
      }
    }
  }

  lemma ListUnderId(start: Time, log: Log, i: nat, p: Path)
    requires HandlerLog(start, log) && i <= |log| && NoneMisnames(start, log, i)
    requires IsFileAt(StateAt(start, log, i).tree, p)
    ensures var a := StateAt(start, log, i).tree[p];
            GoodList(a.replicas) && AllUnder(a.replicas, DataPath(a.fileID))
  {
    MatchesSoFar(start, log, i);
    HistoryStaysGood(start, log, i);
    HistoryRemembers(start, log, i);
    SeenAt(HistoryAt(start, log, i), StateAt(start, log, i), p);
  }

  /** A handle opened at step i writes to its own file for good, whatever becomes of the path. */
  lemma WritesStay(start: Time, log: Log, i: nat, p: Path, d: Disks, op: Op, can: set<Replica>)
    requires HandlerLog(start, log) && i <= |log| && NoneMisnames(start, log, i)
    requires IsFileAt(StateAt(start, log, i).tree, p) && forall r | r in can :: r.addr in d
    ensures var a := StateAt(start, log, i).tree[p]; ChangesOnly(d, Sent(d, op, a.replicas, can), a.fileID)
  {
    var a := StateAt(start, log, i).tree[p];
    ListUnderId(start, log, i, p);
    SentUnder(d, op, a.replicas, can, a.fileID);
  }

  /**
   A handle on the file with this ID truncates at step j through its path. If that changes any
   bytes, they are only its own file's exactly if the path leads to that file, by its ID, then.
   */
  lemma TruncateStaysIff(start: Time, log: Log, j: nat, p: Path, id: FileId, d: Disks, n: nat, can: set<Replica>)
    requires HandlerLog(start, log) && j <= |log| && NoneMisnames(start, log, j)
    requires IsFileAt(StateAt(start, log, j).tree, p) && forall r | r in can :: r.addr in d
    requires Effective(d, Resize(n), StateAt(start, log, j).tree[p].replicas, can)
    ensures var a := StateAt(start, log, j).tree[p];
            ChangesOnly(d, Sent(d, Resize(n), a.replicas, can), id) <==> a.fileID == id
  {
    var a := StateAt(start, log, j).tree[p];
    ListUnderId(start, log, j, p);
    SentUnder(d, Resize(n), a.replicas, can, a.fileID);
  }
}
