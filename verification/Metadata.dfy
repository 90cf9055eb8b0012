/**
 The replicated metadata state seen from outside: a flat map from paths to attributes,
 the DataNode list and the heartbeat times; and what each Raft command does to it.

 The clock reading taken inside apply is a parameter: replicas read different clocks.
 */
module Metadata {
  import opened Paths
  import opened Subtrees

  type Addr = string
  type FileId = string
  type Time = int

  datatype Replica = Replica(addr: Addr, remotePath: string)

  const PENDING := "pending"
  const COMPLETE := "complete"
  const RECOVERING := "recovering"

  const DIR_MODE := 493   // 0755
  const FILE_MODE := 420  // 0644

  datatype Attrs = Attrs(
    isDir: bool,
    size: int,
    mode: nat,
    createdAt: Time,
    modTime: Time,
    status: string,
    fileID: FileId,
    replicas: seq<Replica>)

  datatype CreateMode = CreateIfNotExist | OverwriteIfExists

  datatype Command =
    | Heartbeat(addr: Addr)
    | RemoveDataNode(addr: Addr)
    | Mkdir(path: string, fileID: FileId)
    | CreateFile(path: string, size: int, replicas: seq<Replica>, createMode: CreateMode, fileID: FileId)
    | CompleteFile(path: string)
    | Delete(path: string)
    | Rename(path: string, dstPath: string)
    | UpdateSize(path: string, newSize: int)
    | UpdateReplicas(path: string, newReplicas: seq<Replica>)
    | UpdateStatus(path: string, newStatus: string)
    | UnknownOp(op: string)

  datatype Error =
    | InvalidPath
    | NotFound
    | ParentNotFound
    | NotADirectory
    | IsADirectory
    | AlreadyExists
    | CannotDeleteRoot
    | SourceNotFound
    | IntoOwnSubtree
    | DestinationParentNotFound
    | DestinationIsDirectory
    | FileRecovering
    | EmptyReplicas
    | InvalidStatus
    | UnknownCommand

  datatype Outcome = Ok | Err(error: Error)

  type Tree = map<Path, Attrs>

  datatype Meta = Meta(tree: Tree, nodes: seq<Addr>, beats: map<Addr, Time>)

  function DirAttrs(id: FileId, now: Time): Attrs {
    Attrs(true, 0, DIR_MODE, now, now, "", id, [])
  }

  function InitialTree(now: Time): Tree {
    map[[] := DirAttrs("", now)]
  }

  function InitialMeta(now: Time): Meta {
    Meta(InitialTree(now), [], map[])
  }

  predicate IsDirAt(t: Tree, p: Path) {
    p in t && t[p].isDir
  }

  predicate IsFileAt(t: Tree, p: Path) {
    p in t && !t[p].isDir
  }

  ghost predicate Hangs(t: Tree, p: Path) {
    IsPath(p) && (p != [] ==> IsDirAt(t, Parent(p)))
  }

  /** Every key is a list of names, and its parent is a directory of the map. */
  ghost predicate WellFormed(t: Tree) {
    && IsDirAt(t, [])
    && (forall p {:trigger Hangs(t, p)} | p in t :: Hangs(t, p))
  }

  function Touch(t: Tree, p: Path, now: Time): Tree {
    if p in t then t[p := t[p].(modTime := now)] else t
  }

  // ----- namespace commands -----

  function ApplyMkdir(t: Tree, p: Path, id: FileId, now: Time): (Tree, Outcome) {
    if p == [] then (t, Err(InvalidPath))
    else if !IsDirAt(t, Parent(p)) then (t, Err(ParentNotFound))
    else if p in t then (t, if t[p].isDir then Ok else Err(NotADirectory))
    else (Touch(t, Parent(p), now)[p := DirAttrs(id, now)], Ok)
  }

  function ApplyCreate(t: Tree, p: Path, size: int, replicas: seq<Replica>, mode: CreateMode, id: FileId, now: Time)
    : (Tree, Outcome)
  {
    if p == [] then (t, Err(InvalidPath))
    else if !IsDirAt(t, Parent(p)) then (t, Err(ParentNotFound))
    else if IsDirAt(t, p) then (t, Err(IsADirectory))
    else if p in t && mode != OverwriteIfExists then (t, Err(AlreadyExists))
    else
      // An overwritten file keeps its identity and its creation time.
      var createdAt := if p in t then t[p].createdAt else now;
      var fileID := if p in t then t[p].fileID else id;
      (Touch(t, Parent(p), now)[p := Attrs(false, size, FILE_MODE, createdAt, now, PENDING, fileID, replicas)], Ok)
  }

  function ApplyDelete(t: Tree, p: Path, now: Time): (Tree, Outcome) {
    if p == [] then (t, Err(CannotDeleteRoot))
    else if p !in t then (t, Err(NotFound))
    else (Touch(Prune(t, p), Parent(p), now), Ok)
  }

  function RenameOutcome(t: Tree, src: Path, dst: Path): Outcome {
    if src == [] || dst == [] then Err(InvalidPath)
    else if src !in t then Err(SourceNotFound)
    else if t[src].isDir && src <= Parent(dst) then Err(IntoOwnSubtree)
    else if !IsDirAt(t, Parent(dst)) then Err(DestinationParentNotFound)
    else if IsDirAt(t, dst) then Err(DestinationIsDirectory)
    else Ok
  }

  function RenamedTree(t: Tree, src: Path, dst: Path, now: Time): Tree
    requires src != [] && dst != []
  {
    Touch(Touch(Touch(Move(t, src, dst), Parent(src), now), Parent(dst), now), dst, now)
  }

  function ApplyRename(t: Tree, src: Path, dst: Path, now: Time): (Tree, Outcome) {
    var outcome := RenameOutcome(t, src, dst);
    if outcome != Ok then (t, outcome)
    else (RenamedTree(t, src, dst, now), Ok)
  }

  // ----- commands on one existing file -----

  /** What a file command does to the file it names, or why it refuses. */
  function EditFile(a: Attrs, c: Command): (Attrs, Outcome) {
    match c
    case CompleteFile(_) => (a.(status := COMPLETE), Ok)
    case UpdateSize(_, n) =>
      if a.status == RECOVERING then (a, Err(FileRecovering)) else (a.(size := n), Ok)
    case UpdateReplicas(_, rs) =>
      if rs == [] then (a, Err(EmptyReplicas)) else (a.(replicas := rs), Ok)
    case UpdateStatus(_, s) =>
      if s != COMPLETE && s != RECOVERING && s != PENDING then (a, Err(InvalidStatus)) else (a.(status := s), Ok)
    case _ => (a, Err(UnknownCommand))
  }

  function ApplyEdit(t: Tree, p: Path, c: Command, now: Time): (Tree, Outcome) {
    if p !in t then (t, Err(NotFound))
    else if t[p].isDir then (t, Err(IsADirectory))
    else
      var (a, outcome) := EditFile(t[p], c);
      if outcome != Ok then (t, outcome) else (t[p := a.(modTime := now)], Ok)
  }

  // ----- membership -----

  /** The list without the first occurrence of addr. */
  function RemoveFirst(nodes: seq<Addr>, addr: Addr): seq<Addr> {
    if nodes == [] then []
    else if nodes[0] == addr then nodes[1..]
    else [nodes[0]] + RemoveFirst(nodes[1..], addr)
  }

  function Register(nodes: seq<Addr>, addr: Addr): seq<Addr> {
    if addr in nodes then nodes else nodes + [addr]
  }

  // ----- one committed command -----

  function ApplyTree(t: Tree, c: Command, now: Time): (Tree, Outcome) {
    match c
    case Heartbeat(_) => (t, Ok)
    case RemoveDataNode(_) => (t, Ok)
    case Mkdir(path, id) => ApplyMkdir(t, Components(path), id, now)
    case CreateFile(path, size, replicas, mode, id) => ApplyCreate(t, Components(path), size, replicas, mode, id, now)
    case Delete(path) => ApplyDelete(t, Components(path), now)
    case Rename(src, dst) => ApplyRename(t, Components(src), Components(dst), now)
    case UnknownOp(_) => (t, Err(UnknownCommand))
    case _ => ApplyEdit(t, Components(c.path), c, now)
  }

  function Apply(m: Meta, c: Command, now: Time): (Meta, Outcome) {
    match c
    case Heartbeat(addr) => (m.(nodes := Register(m.nodes, addr), beats := m.beats[addr := now]), Ok)
    case RemoveDataNode(addr) => (m.(nodes := RemoveFirst(m.nodes, addr), beats := m.beats - {addr}), Ok)
    case _ => var (t, outcome) := ApplyTree(m.tree, c, now); (m.(tree := t), outcome)
  }
}
