/** The DataNodes seen together: which bytes lie under which path on which node. */
module Clusters {
  import opened Options
  import opened Metadata
  import opened Invariants
  import opened RepairLists
  import opened ReplicaLists
  import opened DataNodes

  type Nodes = map<Addr, DataNode>

  type Disks = map<Addr, map<string, Bytes>>

  /** Different addresses are different nodes. */
  ghost predicate Separate(nodes: Nodes) {
    forall a, b | a in nodes && b in nodes && a != b :: nodes[a] != nodes[b]
  }

  function DisksOf(nodes: Nodes): Disks
    reads nodes.Values
  {
    map a | a in nodes :: nodes[a].files
  }

  predicate Reachable(nodes: Nodes, a: Addr, down: set<Addr>) {
    a in nodes && a !in down
  }

  // ----- single replicas -----

  function FileOn(d: Disks, r: Replica): Option<Bytes> {
    if r.addr in d && r.remotePath in d[r.addr] then Some(d[r.addr][r.remotePath]) else None
  }

  /** A missing file, or one at an address nobody answers, reads as empty. */
  function BytesOn(d: Disks, r: Replica): Bytes {
    FileOn(d, r).GetOr([])
  }

  function Put(d: Disks, r: Replica, c: Bytes): Disks {
    if r.addr in d then d[r.addr := d[r.addr][r.remotePath := c]] else d
  }

  lemma PutAt(d: Disks, r: Replica, c: Bytes, q: Replica)
    ensures FileOn(Put(d, r, c), q) == if q == r && r.addr in d then Some(c) else FileOn(d, q)
    ensures Put(d, r, c).Keys == d.Keys
  {
  }

  /** Changing one file of one node is a Put. */
  lemma OneNodeChanged(nodes: Nodes, before: Disks, r: Replica, c: Bytes)
    requires r.addr in nodes && before.Keys == nodes.Keys
    requires forall a | a in nodes && a != r.addr :: nodes[a].files == before[a]
    requires nodes[r.addr].files == before[r.addr][r.remotePath := c]
    ensures DisksOf(nodes) == Put(before, r, c)
  {
  }

  /** The reachable replica's file changes by the write; nothing else does on any node. */
  method WriteReplica(nodes: Nodes, r: Replica, offset: nat, data: Bytes, down: set<Addr>) returns (ok: bool)
    requires Separate(nodes)
    modifies nodes.Values
    ensures ok == Reachable(nodes, r.addr, down)
    ensures DisksOf(nodes) ==
            if ok then Put(old(DisksOf(nodes)), r, WriteBytes(BytesOn(old(DisksOf(nodes)), r), offset, data))
            else old(DisksOf(nodes))
  {
    if !Reachable(nodes, r.addr, down) {
      return false;
    }
    ghost var before := DisksOf(nodes);
    ok := nodes[r.addr].PartialWrite(r.remotePath, offset, data);
    OneNodeChanged(nodes, before, r, WriteBytes(BytesOn(before, r), offset, data));
  }

  /** Truncating to zero fails where the file is missing. */
  predicate CanTruncate(d: Disks, r: Replica, n: int, down: set<Addr>) {
    r.addr in d && r.addr !in down && (n > 0 || (n == 0 && FileOn(d, r).Some?))
  }

  method TruncateReplica(nodes: Nodes, r: Replica, n: nat, down: set<Addr>) returns (ok: bool)
    requires Separate(nodes)
    modifies nodes.Values
    ensures ok == CanTruncate(old(DisksOf(nodes)), r, n, down)
    ensures DisksOf(nodes) ==
            if ok then Put(old(DisksOf(nodes)), r, TruncateBytes(BytesOn(old(DisksOf(nodes)), r), n))
            else old(DisksOf(nodes))
  {
    if !Reachable(nodes, r.addr, down) {
      return false;
    }
    ghost var before := DisksOf(nodes);
    ok := nodes[r.addr].Truncate(r.remotePath, n);
    if ok {
      OneNodeChanged(nodes, before, r, TruncateBytes(BytesOn(before, r), n));
    }
  }

  /** One target pulls the file from a source; without both connections nothing happens. */
  method TriggerReplicate(nodes: Nodes, source: Replica, target: Replica, size: int, down: set<Addr>, turns: nat)
    returns (ok: bool)
    requires Separate(nodes) && source.addr != target.addr
    modifies nodes.Values
    ensures var up := Reachable(nodes, source.addr, down) && Reachable(nodes, target.addr, down);
            var d := old(DisksOf(nodes));
            var copied := CopyAfter(BytesOn(d, source), size, turns);
            && (ok <==> up && |copied| >= size)
            && DisksOf(nodes) == if up then Put(d, target, copied) else d
  {
    if !Reachable(nodes, target.addr, down) || !Reachable(nodes, source.addr, down) {
      return false;
    }
    ghost var before := DisksOf(nodes);
    ok := nodes[target.addr].ReplicateFile(nodes[source.addr], source.remotePath, target.remotePath, size, turns);
    OneNodeChanged(nodes, before, target, CopyAfter(BytesOn(before, source), size, turns));
  }

  // ----- an operation sent to a list of replicas -----

  /** The disks after op has been sent to the replicas of a list, of which those in can accept it. */
  function Sent(d: Disks, op: Op, rs: seq<Replica>, can: set<Replica>): Disks {
    if rs == [] then d
    else
      var e, r := Sent(d, op, rs[..|rs| - 1], can), rs[|rs| - 1];
      if r in can then Put(e, r, OnBytes(op, BytesOn(e, r))) else e
  }

  /** Each listed replica that accepts is changed once; no other file on any node changes. */
  lemma {:induction false} SentAt(d: Disks, op: Op, rs: seq<Replica>, can: set<Replica>, q: Replica)
    requires Distinct(Addrs(rs)) && forall r | r in can :: r.addr in d
    ensures FileOn(Sent(d, op, rs, can), q) ==
            if q in rs && q in can then Some(OnBytes(op, BytesOn(d, q))) else FileOn(d, q)
    ensures Sent(d, op, rs, can).Keys == d.Keys
  {
    if rs != [] {
      var n := |rs| - 1;
      var r, e := rs[n], Sent(d, op, rs[..n], can);
      assert Addrs(rs[..n]) == Addrs(rs)[..n] && rs == rs[..n] + [r];
      SentAt(d, op, rs[..n], can, q);
      SentAt(d, op, rs[..n], can, r);
      LastAddrNew(rs);
      PutAt(e, r, OnBytes(op, BytesOn(e, r)), q);
    }
  }

  /** The bytes of the replicas of a list. */
  function CopiesOn(d: Disks, rs: seq<Replica>): (copies: seq<Bytes>)
    ensures |copies| == |rs|
  {
    seq(|rs|, i requires 0 <= i < |rs| => BytesOn(d, rs[i]))
  }

  /** When all accept, all copies change alike. */
  lemma SentToAll(d: Disks, op: Op, rs: seq<Replica>, can: set<Replica>)
    requires Distinct(Addrs(rs)) && (forall r | r in rs :: r in can) && forall r | r in can :: r.addr in d
    ensures CopiesOn(Sent(d, op, rs, can), rs) ==
            seq(|rs|, i requires 0 <= i < |rs| => OnBytes(op, CopiesOn(d, rs)[i]))
  {
    forall i | 0 <= i < |rs|
      ensures BytesOn(Sent(d, op, rs, can), rs[i]) == OnBytes(op, BytesOn(d, rs[i]))
    {
      SentAt(d, op, rs, can, rs[i]);
    }
  }
}
