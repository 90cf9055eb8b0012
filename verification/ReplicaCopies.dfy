/** The copying part of a repair (steps 4 and 5 of repairFile): the targets pull the bytes from one live replica. */
module ReplicaCopies {
  import opened Options
  import opened Metadata
  import opened Invariants
  import opened RepairLists
  import opened ReplicaLists
  import opened RepairScan
  import opened DataNodes
  import opened Clusters

  // ----- the copies -----

  /** The targets that can connect to the source; none if the source cannot be reached. */
  function Connected(nodes: Nodes, source: Replica, targets: seq<Addr>, down: set<Addr>): set<Addr> {
    set a | a in targets && Reachable(nodes, a, down) && Reachable(nodes, source.addr, down)
  }

  /** The disks after the connected targets have pulled src, each for as long as its connection lasts. */
  function Pulled(d: Disks, src: Bytes, file: string, size: int, targets: seq<Addr>, up: set<Addr>, turns: Addr -> nat)
    : Disks
  {
    if targets == [] then d
    else
      var n := |targets| - 1;
      var e, a := Pulled(d, src, file, size, targets[..n], up, turns), targets[n];
      if a in up then Put(e, Replica(a, file), CopyAfter(src, size, turns(a))) else e
  }

  /** The targets whose copy is complete. */
  function Finished(src: Bytes, size: int, up: set<Addr>, turns: Addr -> nat): set<Addr> {
    set a | a in up && |CopyAfter(src, size, turns(a))| >= size
  }

  /** Only the file's path on the connected targets changes. */
  lemma {:induction false} PulledAt(
    d: Disks, src: Bytes, file: string, size: int, targets: seq<Addr>, up: set<Addr>, turns: Addr -> nat, r: Replica)
    ensures FileOn(Pulled(d, src, file, size, targets, up, turns), r) ==
            if r.addr in targets && r.addr in up && r.remotePath == file && r.addr in d
            then Some(CopyAfter(src, size, turns(r.addr))) else FileOn(d, r)
    ensures Pulled(d, src, file, size, targets, up, turns).Keys == d.Keys
    decreases targets
  {
    if targets != [] {
      var n := |targets| - 1;
      var e := Pulled(d, src, file, size, targets[..n], up, turns);
      PulledAt(d, src, file, size, targets[..n], up, turns, r);
      PutAt(e, Replica(targets[n], file), CopyAfter(src, size, turns(targets[n])), r);
      assert targets == targets[..n] + [targets[n]];
    }
  }

  /** All targets pull the file; copies are those whose call succeeded. */
  method CopyToTargets(nodes: Nodes, task: RepairTask, targets: seq<Addr>, down: set<Addr>, turns: Addr -> nat)
    returns (copies: set<Addr>)
    requires Separate(nodes) && task.replicas != []
    requires forall a | a in targets :: a !in AddrSet(task.replicas)
    modifies nodes.Values
    ensures var d, source := old(DisksOf(nodes)), task.replicas[0];
            var src, up := BytesOn(d, source), Connected(nodes, source, targets, down);
            && DisksOf(nodes) == Pulled(d, src, DataPath(task.fileID), task.size, targets, up, turns)
            && copies == Finished(src, task.size, up, turns)
  {
    var source, file := task.replicas[0], DataPath(task.fileID);
    ghost var d, up := DisksOf(nodes), Connected(nodes, source, targets, down);
    ghost var src := BytesOn(d, source);
    assert source in task.replicas && source.addr in AddrSet(task.replicas);
    copies := {};
    for i := 0 to |targets|
      invariant DisksOf(nodes) == Pulled(d, src, file, task.size, targets[..i], up, turns)
      invariant forall a :: a in copies <==> a in targets[..i] && a in Finished(src, task.size, up, turns)
    {
      assert targets[..i + 1] == targets[..i] + [targets[i]] && targets[..i + 1][..i] == targets[..i];
      PulledAt(d, src, file, task.size, targets[..i], up, turns, source);
      var ok := TriggerReplicate(nodes, source, Replica(targets[i], file), task.size, down, turns(targets[i]));
      if ok {
        copies := copies + {targets[i]};
      }
    }
    assert targets[..|targets|] == targets;
    assert forall a | a in up :: a in targets;
  }

  // ----- the list they make -----

  method CollectCopied(targets: seq<Addr>, copies: set<Addr>, id: FileId) returns (rs: seq<Replica>)
    ensures rs == Copied(targets, copies, id)
  {
    rs := [];
    for i := 0 to |targets|
      invariant rs == Copied(targets[..i], copies, id)
    {
      assert targets[..i + 1][..i] == targets[..i];
      if targets[i] in copies {
        rs := rs + [Replica(targets[i], DataPath(id))];
      }
    }
    assert targets[..|targets|] == targets;
  }

  // ----- agreement -----

  /** All replicas of a list hold the bytes c. */
  ghost predicate Agree(d: Disks, rs: seq<Replica>, c: Bytes) {
    forall r | r in rs :: BytesOn(d, r) == c
  }

  /**
   Live replicas that agree still do after the copying, and the new copies agree with them exactly
   if there are none or the bytes have the recorded length.
   */
  lemma CopiesAgreeIff(d: Disks, task: RepairTask, targets: seq<Addr>, up: set<Addr>, turns: Addr -> nat, c: Bytes)
    requires task.replicas != [] && Agree(d, task.replicas, c) && task.size >= 0
    requires (forall a | a in targets :: a !in AddrSet(task.replicas)) && forall a | a in up :: a in targets && a in d
    ensures var d' := Pulled(d, c, DataPath(task.fileID), task.size, targets, up, turns);
            var done := Finished(c, task.size, up, turns);
            && Agree(d', task.replicas, c)
            && (Agree(d', task.replicas + Copied(targets, done, task.fileID), c) <==> done == {} || |c| == task.size)
  {
    var file, done := DataPath(task.fileID), Finished(c, task.size, up, turns);
    var d', added := Pulled(d, c, file, task.size, targets, up, turns), Copied(targets, done, task.fileID);
    CopiedAre(targets, done, task.fileID);
    CopyEndsIff(c, task.size);
    forall r | r in task.replicas + added
      ensures BytesOn(d', r) == if r in task.replicas then c else c[..task.size]
      ensures r !in task.replicas ==> task.size <= |c|
    {
      PulledAt(d, c, file, task.size, targets, up, turns, r);
      if r in task.replicas {
        assert r.addr in AddrSet(task.replicas);
      } else {
        assert |CopyAfter(c, task.size, turns(r.addr))| >= task.size;
      }
    }
    if done != {} {
      var a :| a in done;
      var r := Replica(a, file);
      assert r in added && (r in task.replicas ==> a in AddrSet(task.replicas));
      assert r in task.replicas + added;
    }
  }
}
