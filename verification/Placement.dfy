/** Choosing DataNodes for a new file (selectDataNodes), and the create command the handler submits. */
module Placement {
  import opened Paths
  import opened Metadata
  import opened Invariants
  import opened RepairLists
  import opened ReplicaLists
  import opened MetadataServers

  const TWO_63: int := 0x8000_0000_0000_0000
  const TWO_64: int := 0x1_0000_0000_0000_0000

  /** Go's 64-bit int arithmetic. */
  function Wrap64(x: int): (r: int)
    ensures -TWO_63 <= r < TWO_63 && (r - x) % TWO_64 == 0
  {
    (x + TWO_63) % TWO_64 - TWO_63
  }

  /** Go's %, whose result takes the sign of the dividend. */
  function TruncRem(a: int, n: int): (r: int)
    requires n > 0
    ensures -n < r < n && (a >= 0 ==> r >= 0) && (a <= 0 ==> r <= 0)
  {
    if a >= 0 then a % n else -((-a) % n)
  }

  /** The polynomial hash the code computes, every intermediate result wrapped to 64 bits. */
  function PathHash(path: string): int {
    if path == "" then 0
    else
      var n := |path| - 1;
      Wrap64(Wrap64(PathHash(path[..n]) * 31) + path[n] as int)
  }

  /** The same polynomial over the integers. */
  function PathPolynomial(path: string): int {
    if path == "" then 0
    else
      var n := |path| - 1;
      PathPolynomial(path[..n]) * 31 + path[n] as int
  }

  lemma WrapWitness(x: int) returns (k: int)
    ensures Wrap64(x) == x + k * TWO_64
  {
    k := (Wrap64(x) - x) / TWO_64;
  }

  /** Wrapping at every step is wrapping once: k * 2^64 is all that is lost. */
  lemma {:induction false} HashIsWrappedPolynomial(path: string) returns (k: int)
    ensures PathHash(path) == PathPolynomial(path) + k * TWO_64
    ensures -TWO_63 <= PathHash(path) < TWO_63
  {
    if path == "" {
      k := 0;
    } else {
      var n := |path| - 1;
      var k0 := HashIsWrappedPolynomial(path[..n]);
      var k1 := WrapWitness(PathHash(path[..n]) * 31);
      var k2 := WrapWitness(Wrap64(PathHash(path[..n]) * 31) + path[n] as int);
      k := k0 * 31 + k1 + k2;
    }
  }

  function FirstNode(path: string, nodes: nat): (start: nat)
    requires nodes > 0
    ensures start < nodes
  {
    var rem := TruncRem(PathHash(path), nodes);
    if rem < 0 then -rem else rem
  }

  /** Go's remainder, without its sign, is that of the absolute value. */
  lemma RemainderIs(a: int, n: int)
    requires n > 0
    ensures TruncRem(a, n) == if a >= 0 then a % n else -(-a % n)
  {
  }

  /** The first node is the 64-bit value congruent to the polynomial, without its sign, modulo the node count. */
  lemma FirstNodeIs(path: string, nodes: nat) returns (h: int, k: int)
    requires nodes > 0
    ensures h == PathPolynomial(path) + k * 0x1_0000_0000_0000_0000
    ensures -0x8000_0000_0000_0000 <= h < 0x8000_0000_0000_0000
    ensures FirstNode(path, nodes) == (if h < 0 then -h else h) % nodes
  {
    h := PathHash(path);
    k := HashIsWrappedPolynomial(path);
    RemainderIs(h, nodes);
  }

  function Power(n: nat): nat {
    if n == 0 then 1 else 31 * Power(n - 1)
  }

  /** The polynomial in 31 whose coefficients are the characters, the last one the constant term. */
  lemma {:induction false} PolynomialAt(path: string, rest: string)
    ensures PathPolynomial("") == 0 && (|path| == 1 ==> PathPolynomial(path) == path[0] as int)
    ensures PathPolynomial(path + rest) == PathPolynomial(path) * Power(|rest|) + PathPolynomial(rest)
  {
    assert |path| == 1 ==> path[..0] == "" && PathPolynomial(path[..0]) == 0;
    if rest == "" {
      assert path + rest == path;
    } else {
      var n := |rest| - 1;
      PolynomialAt(path, rest[..n]);
      LastCharacter(path + rest, path + rest[..n], rest[n]);
      LastCharacter(rest, rest[..n], rest[n]);
      Horner(PathPolynomial(path), Power(n), PathPolynomial(rest[..n]), rest[n] as int);
    }
  }

  lemma LastCharacter(path: string, init: string, c: char)
    requires path == init + [c]
    ensures PathPolynomial(path) == PathPolynomial(init) * 31 + c as int
  {
    assert path[..|path| - 1] == init;
  }

  lemma Horner(p: int, w: int, r: int, c: int)
    ensures (p * w + r) * 31 + c == p * (31 * w) + (r * 31 + c)
  {
  }

  method StartIndex(path: string, nodes: nat) returns (start: nat)
    requires nodes > 0
    ensures start == FirstNode(path, nodes)
  {
    var hash := 0;
    for i := 0 to |path|
      invariant hash == PathHash(path[..i])
    {
      assert path[..i + 1][..i] == path[..i];
      hash := Wrap64(Wrap64(hash * 31) + path[i] as int);
    }
    assert path[..|path|] == path;
    var rem := TruncRem(hash, nodes);
    start := if rem < 0 then -rem else rem;
  }

  /** As many as wanted, but no more than there are, and at least one. */
  function ReplicaGoal(replicaCount: int, nodes: nat): (goal: nat)
    requires nodes > 0
    ensures 1 <= replicaCount <= nodes ==> goal == replicaCount
    ensures replicaCount > nodes ==> goal == nodes
    ensures replicaCount < 1 ==> goal == 1
  {
    var n := if replicaCount > nodes then nodes else replicaCount;
    if n < 1 then 1 else n
  }

  lemma RotationDistinct(start: nat, i: nat, j: nat, n: nat)
    requires start < n && i < j < n
    ensures (start + i) % n != (start + j) % n
  {
    RotationValue(start, i, n);
    RotationValue(start, j, n);
  }

  lemma RotationValue(start: nat, i: nat, n: nat)
    requires start < n && i < n
    ensures (start + i) % n == if start + i < n then start + i else start + i - n
  {
  }

  /**
   The replicas of a new file: registered nodes, none twice, all under the file's own path,
   and as many as wanted or as there are when the node list has no duplicates.
   */
  method SelectDataNodes(dataNodes: seq<Addr>, path: string, fileID: FileId, replicaCount: int)
    returns (replicas: seq<Replica>)
    requires |dataNodes| > 0
    ensures GoodList(replicas) && AllUnder(replicas, DataPath(fileID))
    ensures forall r | r in replicas :: r.addr in dataNodes
    ensures |replicas| <= ReplicaGoal(replicaCount, |dataNodes|)
    ensures Distinct(dataNodes) ==>
            && |replicas| == ReplicaGoal(replicaCount, |dataNodes|)
            && forall j | 0 <= j < |replicas| ::
                 replicas[j].addr == dataNodes[(FirstNode(path, |dataNodes|) + j) % |dataNodes|]
  {
    var len := |dataNodes|;
    var n := ReplicaGoal(replicaCount, len);
    var start := StartIndex(path, len);
    replicas := [];
    var seen: set<Addr> := {};
    for i := 0 to n
      invariant |replicas| <= i && (i > 0 ==> replicas != [])
      invariant Distinct(Addrs(replicas)) && AllUnder(replicas, DataPath(fileID))
      invariant forall r | r in replicas :: r.addr in dataNodes
      invariant forall a :: a in seen <==> a in Addrs(replicas)
      invariant Distinct(dataNodes) ==> |replicas| == i
      invariant Distinct(dataNodes) ==>
                forall j | 0 <= j < |replicas| :: replicas[j].addr == dataNodes[(start + j) % len]
    {
      var idx := (start + i) % len;
      var addr := dataNodes[idx];
      if Distinct(dataNodes) && addr in seen {
        var j :| 0 <= j < |replicas| && Addrs(replicas)[j] == addr;
        RotationDistinct(start, j, i, len);
        assert false;
      }
      if addr !in seen {
        seen := seen + {addr};
        var r := Replica(addr, DataPath(fileID));
        assert Addrs(replicas + [r]) == Addrs(replicas) + [addr];
        replicas := replicas + [r];
      }
    }
  }

  datatype Submission = Submit(cmd: Command) | Refuse(reason: string)

  /** The part of the CreateFile handler before the Raft round: checks, then the command to submit. */
  method PrepareCreate(mds: MetadataServer, path: string, size: int, mode: CreateMode, fileID: FileId,
                       replicaCount: int)
    returns (r: Submission)
    requires mds.Valid()
    ensures r.Submit? <==>
            && mds.dataNodes != []
            && Components(path) != [] && IsDirAt(mds.State().tree, Parent(Components(path)))
    ensures r.Submit? ==>
            && r.cmd.CreateFile? && r.cmd == CreateFile(path, size, r.cmd.replicas, mode, fileID)
            && HandlerIssued(History((set a | a in mds.dataNodes), {}, {}), r.cmd)
            && (Distinct(mds.dataNodes) ==> |r.cmd.replicas| == ReplicaGoal(replicaCount, |mds.dataNodes|))
  {
    if |mds.dataNodes| == 0 {
      return Refuse("no data nodes registered");
    }
    var parts := SplitPath(path);
    if parts == [] {
      return Refuse("invalid path");
    }
    var parent := mds.WalkDirs(Parent(parts));
    if parent == null {
      return Refuse("parent directory not found");
    }
    var replicas := SelectDataNodes(mds.dataNodes, path, fileID, replicaCount);
    return Submit(CreateFile(path, size, replicas, mode, fileID));
  }
}
