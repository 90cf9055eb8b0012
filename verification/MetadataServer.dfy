/**
 The metadata server's state machine on the heap: a tree of Entry objects linked by
 children maps, changed in place by the ten Raft commands.

 The ghost map `at` lists every entry of the tree by its path. Each command is proved to
 do to the heap exactly what Metadata.Apply does to the flat map.
 */
module MetadataServers {
  import opened Paths
  import opened Subtrees
  import opened Metadata
  import opened Effects
  import opened Options
  import opened Snapshots

  class Entry {
    var name: string
    var isDir: bool
    var size: int
    var mode: nat
    var createdAt: Time
    var modTime: Time
    var status: string
    var fileID: FileId
    var replicas: seq<Replica>
    var children: map<string, Entry>

    constructor (name: string, attrs: Attrs)
      ensures Shape() == Node(this, name, attrs.isDir, map[]) && View() == attrs
    {
      this.name, isDir, size, mode := name, attrs.isDir, attrs.size, attrs.mode;
      createdAt, modTime, status := attrs.createdAt, attrs.modTime, attrs.status;
      fileID, replicas, children := attrs.fileID, attrs.replicas, map[];
    }

    ghost function Shape(): Node<Entry>
      reads this
    {
      Node(this, name, isDir, children)
    }

    ghost function View(): Attrs
      reads this
    {
      Attrs(isDir, size, mode, createdAt, modTime, status, fileID, replicas)
    }
  }

  type Index = map<Path, Entry>

  ghost predicate Owned(at: Index, repr: set<Entry>) {
    forall p | p in at :: at[p] in repr
  }

  ghost function ShapeOf(at: Index, repr: set<Entry>): map<Path, Node<Entry>>
    requires Owned(at, repr)
    reads repr
  {
    map p | p in at :: at[p].Shape()
  }

  ghost function ViewOf(at: Index, repr: set<Entry>): Tree
    requires Owned(at, repr)
    reads repr
  {
    map p | p in at :: at[p].View()
  }

  /** The entry at p sits at no other path. */
  ghost predicate Solo(at: Index, p: Path) {
    p in at && forall q | q in at && at[q] == at[p] :: q == p
  }

  lemma OnlyAt(at: Index, repr: set<Entry>, p: Path)
    requires Owned(at, repr) && OneParent(ShapeOf(at, repr)) && p in at
    ensures Solo(at, p)
  {
    forall q | q in at && at[q] == at[p]
      ensures q == p
    {
      assert Apart(ShapeOf(at, repr), q, p);
    }
  }

  class MetadataServer {
    var root: Entry
    var dataNodes: seq<Addr>
    var lastHeartbeat: map<Addr, Time>
    ghost var at: Index
    ghost var repr: set<Entry>

    ghost predicate Valid()
      reads this`root, this`at, this`repr, repr
    {
      && Owned(at, repr)
      && IsTree(ShapeOf(at, repr), "/")
      && at[[]] == root && root.isDir
    }

    /** The flat state the heap stands for. */
    ghost function State(): Meta
      requires Owned(at, repr)
      reads this, repr
    {
      Meta(ViewOf(at, repr), dataNodes, lastHeartbeat)
    }

    constructor (now: Time)
      ensures Valid() && fresh(repr)
      ensures State() == InitialMeta(now)
    {
      var r := new Entry("/", DirAttrs("", now));
      root, dataNodes, lastHeartbeat, at, repr := r, [], map[], map[[] := r], {r};
      new;
      assert ShapeOf(at, repr) == map[[] := Node(r, "/", true, map[])];
      forall k
        ensures Linked(ShapeOf(at, repr), [], k)
      {
        assert Child([], k) != [];
      }
      assert ViewOf(at, repr) == InitialTree(now);
    }

    // ----- walking the tree -----

    method Lookup(path: string) returns (e: Entry?)
      requires Valid()
      ensures e != null <==> Components(path) in at
      ensures e != null ==> e == at[Components(path)]
    {
      var parts := SplitPath(path);
      var current := root;
      for i := 0 to |parts|
        invariant parts[..i] in at && current == at[parts[..i]]
      {
        assert Linked(ShapeOf(at, repr), parts[..i], parts[i]);
        assert Child(parts[..i], parts[i]) == parts[..i + 1];
        if parts[i] !in current.children {
          BelowAbsent(ShapeOf(at, repr), "/", parts[..i + 1], parts);
          return null;
        }
        current := current.children[parts[i]];
      }
      assert parts[..|parts|] == parts;
      return current;
    }

    /** The directory at a list of components, following directories only. */
    method WalkDirs(parts: Path) returns (e: Entry?)
      requires Valid()
      ensures e != null <==> parts in at && at[parts].isDir
      ensures e != null ==> e == at[parts]
    {
      var current := root;
      for i := 0 to |parts|
        invariant parts[..i] in at && current == at[parts[..i]] && current.isDir
      {
        var up := parts[..i + 1];
        assert Linked(ShapeOf(at, repr), parts[..i], parts[i]);
        assert Child(parts[..i], parts[i]) == up;
        if parts[i] !in current.children || !current.children[parts[i]].isDir {
          if parts in at {
            PrefixInTree(ShapeOf(at, repr), "/", up, parts);
          }
          return null;
        }
        current := current.children[parts[i]];
      }
      assert parts[..|parts|] == parts;
      return current;
    }

    /** The directory that holds the last component, and the entry there if any. */
    method FindSlot(parts: Path) returns (parent: Entry?, child: Entry?)
      requires Valid() && parts != []
      ensures parent != null <==> Parent(parts) in at && at[Parent(parts)].isDir
      ensures parent != null ==> parent == at[Parent(parts)]
      ensures child != null <==> parts in at
      ensures child != null ==> parent != null && child == at[parts]
    {
      ghost var s := ShapeOf(at, repr);
      child := null;
      parent := WalkDirs(Parent(parts));
      assert parts == Child(Parent(parts), Last(parts)) && Parent(parts) <= parts;
      if parent == null {
        if parts in at {
          PrefixInTree(s, "/", Parent(parts), parts);
        }
        return;
      }
      assert Linked(s, Parent(parts), Last(parts));
      if Last(parts) in parent.children {
        child := parent.children[Last(parts)];
      }
    }

    /** Rename's cycle test: does the walk down to dstDir pass through srcEntry? */
    method WalkMeets(dstDir: Path, srcEntry: Entry, ghost src: Path) returns (met: bool)
      requires Valid() && src in at && at[src] == srcEntry && srcEntry.isDir
      ensures met <==> src <= dstDir
    {
      var ancestor := root;
      OnlyAt(at, repr, src);
      var i := 0;
      while i < |dstDir|
        invariant 0 <= i <= |dstDir|
        invariant dstDir[..i] in at && ancestor == at[dstDir[..i]]
        invariant forall j | 0 <= j < i :: dstDir[..j] != src
      {
        if ancestor == srcEntry {
          return true;
        }
        var up := dstDir[..i + 1];
        assert Linked(ShapeOf(at, repr), dstDir[..i], dstDir[i]);
        assert Child(dstDir[..i], dstDir[i]) == up;
        if dstDir[i] !in ancestor.children || !ancestor.children[dstDir[i]].isDir {
          if src <= dstDir {
            WalkCannotStop(src, dstDir, i);
          }
          return false;
        }
        ancestor := ancestor.children[dstDir[i]];
        i := i + 1;
      }
      met := ancestor == srcEntry;
      if src <= dstDir {
        assert dstDir[..|src|] == src;
      }
      assert dstDir[..|dstDir|] == dstDir;
    }

    /** A walk toward a directory that has not met it yet can take one more step. */
    lemma WalkCannotStop(src: Path, dstDir: Path, i: nat)
      requires Valid() && src in at && at[src].isDir && src <= dstDir && i < |dstDir|
      requires forall j | 0 <= j <= i :: dstDir[..j] != src
      ensures dstDir[..i + 1] in at && at[dstDir[..i + 1]].isDir
    {
      assert dstDir[..|src|] == src;
      assert dstDir[..i + 1] == src[..i + 1];
      PrefixInTree(ShapeOf(at, repr), "/", dstDir[..i + 1], src);
    }

    // ----- changing links -----

    /** children[name] = e, for a new childless entry e taking the place of any file at p. */
    method PutChild(parent: Entry, e: Entry, ghost p: Path)
      requires Valid() && p != [] && IsPath(p)
      requires Parent(p) in at && at[Parent(p)] == parent && parent.isDir
      requires p in at ==> !at[p].isDir
      requires e !in repr && e.name == Last(p) && e.children == map[]
      modifies this`at, this`repr, parent`children
      ensures Valid()
      ensures at == old(at)[p := e] && repr == old(repr) + {e}
    {
      assert Solo(at, Parent(p)) by { OnlyAt(at, repr, Parent(p)); }
      ghost var s := ShapeOf(at, repr);
      ghost var n := e.Shape();
      parent.children := parent.children[e.name := e];
      at, repr := at[p := e], repr + {e};
      SameMap(ShapeOf(at, repr), s[Parent(p) := WithChild(s[Parent(p)], Last(p), e)][p := n]);
      PutIsTree(s, "/", p, n);
    }

    /** delete(children, name), which drops the whole subtree at p. */
    method DropChild(parent: Entry, p: Path)
      requires Valid() && p in at && p != []
      requires Parent(p) in at && at[Parent(p)] == parent
      modifies this`at, parent`children
      ensures Valid() && Solo(at, Parent(p))
      ensures at == Prune(old(at), p)
    {
      OnlyAt(at, repr, Parent(p));
      ghost var s := ShapeOf(at, repr);
      parent.children := parent.children - {Last(p)};
      at := Prune(at, p);
      DetachIsTree(s, "/", p, ShapeOf(at, repr));
      OnlyAt(at, repr, Parent(p));
    }

    /** Takes srcEntry off its parent and hangs it at dst under its new name. */
    method MoveEntry(srcParent: Entry, srcEntry: Entry, dstParent: Entry, src: Path, dst: Path)
      requires Valid() && Movable(ShapeOf(at, repr), src, dst) && ParentsStay(src, dst)
      requires at[src] == srcEntry && at[Parent(dst)] == dstParent
      requires Parent(src) in at && at[Parent(src)] == srcParent
      modifies this`at, srcParent`children, dstParent`children, srcEntry`name
      ensures Valid()
      ensures at == Move(old(at), src, dst)
    {
      ghost var m, s := at, ShapeOf(at, repr);
      OnlyAt(m, repr, src);
      OnlyAt(m, repr, Parent(src));
      OnlyAt(m, repr, Parent(dst));
      Relink(srcParent, srcEntry, dstParent, src, dst);
      MovedTree(m, repr, s, src, dst);
      ghost var t := ShapeOf(Move(m, src, dst), repr);
      at := Move(m, src, dst);
      SameMap(ShapeOf(at, repr), t);
    }

    method Relink(srcParent: Entry, srcEntry: Entry, dstParent: Entry, src: Path, dst: Path)
      requires Owned(at, repr)
      requires ParentsStay(src, dst) && Solo(at, src) && Solo(at, Parent(src)) && Solo(at, Parent(dst))
      requires at[src] == srcEntry && at[Parent(src)] == srcParent && at[Parent(dst)] == dstParent
      modifies srcParent`children, dstParent`children, srcEntry`name
      ensures Reparented(old(ShapeOf(at, repr)), src, dst, ShapeOf(at, repr))
    {
      ghost var s := ShapeOf(at, repr);
      if Last(dst) in dstParent.children {
        dstParent.children := dstParent.children - {Last(dst)};
      }
      srcParent.children := srcParent.children - {Last(src)};
      srcEntry.name := Last(dst);
      dstParent.children := dstParent.children[Last(dst) := srcEntry];
      SetAfterDrop(s[Parent(dst)], Last(dst), Last(src), srcEntry);
      assert srcEntry.Shape() == s[src].(name := Last(dst));
      assert srcParent.Shape() == Adjusted(s, src, dst, Parent(src));
      assert dstParent.Shape() == Adjusted(s, src, dst, Parent(dst));
    }

    // ----- the commands -----

    method ApplyHeartbeat(addr: Addr, now: Time) returns (outcome: Outcome)
      requires Valid()
      modifies this`dataNodes, this`lastHeartbeat
      ensures Valid()
      ensures ViewOf(at, repr) == old(ViewOf(at, repr))
      ensures dataNodes == Register(old(dataNodes), addr)
      ensures lastHeartbeat == old(lastHeartbeat)[addr := now]
      ensures outcome == Ok
    {
      var found := false;
      for i := 0 to |dataNodes|
        invariant !found && addr !in dataNodes[..i]
      {
        if dataNodes[i] == addr {
          found := true;
          break;
        }
      }
      assert dataNodes[..|dataNodes|] == dataNodes;
      if !found {
        dataNodes := dataNodes + [addr];
      }
      lastHeartbeat := lastHeartbeat[addr := now];
      return Ok;
    }

    method ApplyRemoveDataNode(addr: Addr, now: Time) returns (outcome: Outcome)
      requires Valid()
      modifies this`dataNodes, this`lastHeartbeat
      ensures Valid()
      ensures ViewOf(at, repr) == old(ViewOf(at, repr))
      ensures dataNodes == RemoveFirst(old(dataNodes), addr)
      ensures lastHeartbeat == old(lastHeartbeat) - {addr}
      ensures outcome == Ok
    {
      for i := 0 to |dataNodes|
        invariant dataNodes == old(dataNodes) && addr !in dataNodes[..i]
      {
        if dataNodes[i] == addr {
          RemoveFirstIs(dataNodes, addr, i);
          dataNodes := dataNodes[..i] + dataNodes[i + 1..];
          break;
        }
      }
      if dataNodes == old(dataNodes) {
        assert dataNodes[..|dataNodes|] == dataNodes;
        RemoveFirstNone(dataNodes, addr);
      }
      lastHeartbeat := lastHeartbeat - {addr};
      return Ok;
    }

    method ApplyMkdir(path: string, fileID: FileId, now: Time) returns (outcome: Outcome)
      requires Valid()
      modifies this`at, this`repr, repr
      ensures Valid() && fresh(repr - old(repr))
      ensures (ViewOf(at, repr), outcome) == Metadata.ApplyMkdir(old(ViewOf(at, repr)), Components(path), fileID, now)
    {
      var parts := SplitPath(path);
      if parts == [] {
        return Err(InvalidPath);
      }
      var current, child := FindSlot(parts);
      if current == null {
        return Err(ParentNotFound);
      }
      if child != null {
        if !child.isDir {
          return Err(NotADirectory);
        }
        return Ok;
      }
      NewEntry(current, parts, DirAttrs(fileID, now), now);
      return Ok;
    }

    /** A new childless entry at p. */
    method PutEntry(parent: Entry, p: Path, attrs: Attrs)
      requires Valid() && p != [] && IsPath(p)
      requires Parent(p) in at && at[Parent(p)] == parent && parent.isDir
      requires p in at ==> !at[p].isDir
      modifies this`at, this`repr, parent`children
      ensures Valid() && fresh(repr - old(repr))
      ensures Solo(at, Parent(p)) && at[Parent(p)] == parent
      ensures ViewOf(at, repr) == old(ViewOf(at, repr))[p := attrs]
    {
      ghost var v := ViewOf(at, repr);
      var e := new Entry(Last(p), attrs);
      PutChild(parent, e, p);
      SameMap(ViewOf(at, repr), v[p := attrs]);
      OnlyAt(at, repr, Parent(p));
    }

    /** A new childless entry at p, and the parent's modification time. */
    method NewEntry(parent: Entry, p: Path, attrs: Attrs, now: Time)
      requires Valid() && p != [] && IsPath(p)
      requires Parent(p) in at && at[Parent(p)] == parent && parent.isDir
      requires p in at ==> !at[p].isDir
      modifies this`at, this`repr, parent`children, parent`modTime
      ensures Valid() && fresh(repr - old(repr))
      ensures ViewOf(at, repr) == Touch(old(ViewOf(at, repr)), Parent(p), now)[p := attrs]
    {
      ghost var v := ViewOf(at, repr);
      PutEntry(parent, p, attrs);
      SetModTime(parent, Parent(p), now);
      TouchBeside(v, Parent(p), p, attrs, now);
    }

    method SetModTime(e: Entry, ghost p: Path, now: Time)
      requires Owned(at, repr) && Solo(at, p) && at[p] == e
      modifies e`modTime
      ensures ShapeOf(at, repr) == old(ShapeOf(at, repr))
      ensures ViewOf(at, repr) == Touch(old(ViewOf(at, repr)), p, now)
    {
      e.modTime := now;
    }

    method ApplyCreateFile(path: string, size: int, replicas: seq<Replica>, createMode: CreateMode, fileID: FileId,
                           now: Time)
      returns (outcome: Outcome)
      requires Valid()
      modifies this`at, this`repr, repr
      ensures Valid() && fresh(repr - old(repr))
      ensures (ViewOf(at, repr), outcome) ==
              ApplyCreate(old(ViewOf(at, repr)), Components(path), size, replicas, createMode, fileID, now)
    {
      var parts := SplitPath(path);
      outcome := CreateParts(parts, size, replicas, createMode, fileID, now);
    }

    method CreateParts(parts: Path, size: int, replicas: seq<Replica>, createMode: CreateMode, fileID: FileId,
                       now: Time)
      returns (outcome: Outcome)
      requires Valid() && IsPath(parts)
      modifies this`at, this`repr, repr
      ensures Valid() && fresh(repr - old(repr))
      ensures (ViewOf(at, repr), outcome) ==
                ApplyCreate(old(ViewOf(at, repr)), parts, size, replicas, createMode, fileID, now)
    {
      if parts == [] {
        return Err(InvalidPath);
      }
      var current, existing := FindSlot(parts);
      if current == null {
        return Err(ParentNotFound);
      }
      var createdAt, id := now, fileID;
      if existing != null {
        if existing.isDir {
          return Err(IsADirectory);
        }
        if createMode != OverwriteIfExists {
          return Err(AlreadyExists);
        }
        createdAt, id := existing.createdAt, existing.fileID;
      }
      NewEntry(current, parts, Attrs(false, size, FILE_MODE, createdAt, now, PENDING, id, replicas), now);
      return Ok;
    }

    method ApplyDelete(path: string, now: Time) returns (outcome: Outcome)
      requires Valid()
      modifies this`at, this`repr, repr
      ensures Valid() && repr == old(repr)
      ensures (ViewOf(at, repr), outcome) == Metadata.ApplyDelete(old(ViewOf(at, repr)), Components(path), now)
    {
      var parts := SplitPath(path);
      if parts == [] {
        return Err(CannotDeleteRoot);
      }
      var current, child := FindSlot(parts);
      if current == null || child == null {
        return Err(NotFound);
      }
      DeleteEntry(current, parts, now);
      return Ok;
    }

    method DeleteEntry(parent: Entry, p: Path, now: Time)
      requires Valid() && p in at && p != []
      requires Parent(p) in at && at[Parent(p)] == parent
      modifies this`at, parent`children, parent`modTime
      ensures Valid() && repr == old(repr)
      ensures ViewOf(at, repr) == Touch(Prune(old(ViewOf(at, repr)), p), Parent(p), now)
    {
      ghost var v := ViewOf(at, repr);
      DropChild(parent, p);
      assert ViewOf(at, repr) == Prune(v, p);
      SetModTime(parent, Parent(p), now);
    }

    method ApplyRename(path: string, dstPath: string, now: Time) returns (outcome: Outcome)
      requires Valid()
      modifies this`at, this`repr, repr
      ensures Valid() && repr == old(repr)
      ensures (ViewOf(at, repr), outcome) ==
              Metadata.ApplyRename(old(ViewOf(at, repr)), Components(path), Components(dstPath), now)
    {
      var src := SplitPath(path);
      var dst := SplitPath(dstPath);
      outcome := RenameParts(src, dst, now);
    }

    method RenameParts(src: Path, dst: Path, now: Time) returns (outcome: Outcome)
      requires Valid() && IsPath(dst)
      modifies this`at, this`repr, repr
      ensures Valid() && repr == old(repr)
      ensures (ViewOf(at, repr), outcome) == Metadata.ApplyRename(old(ViewOf(at, repr)), src, dst, now)
    {
      if src == [] || dst == [] {
        return Err(InvalidPath);
      }
      var srcParent, srcEntry := FindSlot(src);
      if srcParent == null || srcEntry == null {
        return Err(SourceNotFound);
      }
      if srcEntry.isDir {
        var met := WalkMeets(Parent(dst), srcEntry, src);
        if met {
          return Err(IntoOwnSubtree);
        }
      }
      var dstParent, dstEntry := FindSlot(dst);
      if dstParent == null {
        return Err(DestinationParentNotFound);
      }
      if dstEntry != null && dstEntry.isDir {
        return Err(DestinationIsDirectory);
      }
      if src <= Parent(dst) {
        PrefixInTree(ShapeOf(at, repr), "/", src, Parent(dst));
      }
      RenameEntry(srcParent, srcEntry, dstParent, src, dst, now);
      return Ok;
    }

    method RenameEntry(srcParent: Entry, srcEntry: Entry, dstParent: Entry, src: Path, dst: Path, now: Time)
      requires Valid() && Movable(ShapeOf(at, repr), src, dst)
      requires at[src] == srcEntry && at[Parent(dst)] == dstParent
      requires Parent(src) in at && at[Parent(src)] == srcParent
      modifies this`at, srcParent, dstParent, srcEntry
      ensures Valid() && repr == old(repr)
      ensures ViewOf(at, repr) == RenamedTree(old(ViewOf(at, repr)), src, dst, now)
    {
      MovableParents(ShapeOf(at, repr), "/", src, dst);
      MoveLinks(srcParent, srcEntry, dstParent, src, dst);
      SetModTimes(srcParent, Parent(src), dstParent, srcEntry, dst, now);
    }

    method SetModTimes(srcParent: Entry, ghost up: Path, dstParent: Entry, e: Entry, ghost dst: Path, now: Time)
      requires Owned(at, repr) && dst != [] && Solo(at, up) && Solo(at, Parent(dst)) && Solo(at, dst)
      requires at[up] == srcParent && at[Parent(dst)] == dstParent && at[dst] == e
      modifies srcParent`modTime, dstParent`modTime, e`modTime
      ensures ShapeOf(at, repr) == old(ShapeOf(at, repr))
      ensures ViewOf(at, repr) == Touch(Touch(Touch(old(ViewOf(at, repr)), up, now), Parent(dst), now), dst, now)
    {
      SetModTime(srcParent, up, now);
      SetModTime(dstParent, Parent(dst), now);
      SetModTime(e, dst, now);
    }

    method MoveLinks(srcParent: Entry, srcEntry: Entry, dstParent: Entry, src: Path, dst: Path)
      requires Valid() && Movable(ShapeOf(at, repr), src, dst) && ParentsStay(src, dst)
      requires at[src] == srcEntry && at[Parent(dst)] == dstParent
      requires Parent(src) in at && at[Parent(src)] == srcParent
      modifies this`at, srcParent`children, dstParent`children, srcEntry`name
      ensures Valid() && repr == old(repr)
      ensures Solo(at, dst) && at[dst] == srcEntry
      ensures Solo(at, Parent(src)) && at[Parent(src)] == srcParent
      ensures Solo(at, Parent(dst)) && at[Parent(dst)] == dstParent
      ensures ViewOf(at, repr) == Move(old(ViewOf(at, repr)), src, dst)
    {
      ghost var m, v := at, ViewOf(at, repr);
      MoveEntry(srcParent, srcEntry, dstParent, src, dst);
      SameMap(ViewOf(m, repr), v);
      MoveView(m, repr, src, dst);
      MovedKeys(m, src, dst);
      OnlyAt(at, repr, dst);
      OnlyAt(at, repr, Parent(src));
      OnlyAt(at, repr, Parent(dst));
    }

    // ----- commands on one file -----

    method ApplyCompleteFile(path: string, now: Time) returns (outcome: Outcome)
      requires Valid()
      modifies repr
      ensures Valid()
      ensures (ViewOf(at, repr), outcome) ==
              ApplyEdit(old(ViewOf(at, repr)), Components(path), CompleteFile(path), now)
    {
      var e := Lookup(path);
      if e == null {
        return Err(NotFound);
      }
      if e.isDir {
        return Err(IsADirectory);
      }
      SetFile(e, Components(path), e.size, e.replicas, COMPLETE, now);
      return Ok;
    }

    method ApplyUpdateSize(path: string, newSize: int, now: Time) returns (outcome: Outcome)
      requires Valid()
      modifies repr
      ensures Valid()
      ensures (ViewOf(at, repr), outcome) ==
              ApplyEdit(old(ViewOf(at, repr)), Components(path), UpdateSize(path, newSize), now)
    {
      var e := Lookup(path);
      if e == null {
        return Err(NotFound);
      }
      if e.isDir {
        return Err(IsADirectory);
      }
      if e.status == RECOVERING {
        return Err(FileRecovering);
      }
      SetFile(e, Components(path), newSize, e.replicas, e.status, now);
      return Ok;
    }

    method ApplyUpdateReplicas(path: string, newReplicas: seq<Replica>, now: Time) returns (outcome: Outcome)
      requires Valid()
      modifies repr
      ensures Valid()
      ensures (ViewOf(at, repr), outcome) ==
              ApplyEdit(old(ViewOf(at, repr)), Components(path), UpdateReplicas(path, newReplicas), now)
    {
      var e := Lookup(path);
      if e == null {
        return Err(NotFound);
      }
      if e.isDir {
        return Err(IsADirectory);
      }
      if |newReplicas| == 0 {
        return Err(EmptyReplicas);
      }
      SetFile(e, Components(path), e.size, newReplicas, e.status, now);
      return Ok;
    }

    method ApplyUpdateStatus(path: string, newStatus: string, now: Time) returns (outcome: Outcome)
      requires Valid()
      modifies repr
      ensures Valid()
      ensures (ViewOf(at, repr), outcome) ==
              ApplyEdit(old(ViewOf(at, repr)), Components(path), UpdateStatus(path, newStatus), now)
    {
      var e := Lookup(path);
      if e == null {
        return Err(NotFound);
      }
      if e.isDir {
        return Err(IsADirectory);
      }
      if newStatus != COMPLETE && newStatus != RECOVERING && newStatus != PENDING {
        return Err(InvalidStatus);
      }
      SetFile(e, Components(path), e.size, e.replicas, newStatus, now);
      return Ok;
    }

    method SetFile(e: Entry, ghost p: Path, size: int, replicas: seq<Replica>, status: string, now: Time)
      requires Valid() && p in at && at[p] == e
      modifies e`size, e`replicas, e`status, e`modTime
      ensures Valid()
      ensures ViewOf(at, repr) == old(ViewOf(at, repr))[p := old(e.View()).(
                size := size, replicas := replicas, status := status, modTime := now)]
    {
      OnlyAt(at, repr, p);
      ghost var s, v := ShapeOf(at, repr), ViewOf(at, repr);
      ghost var a := v[p].(size := size, replicas := replicas, status := status, modTime := now);
      e.size, e.replicas, e.status, e.modTime := size, replicas, status, now;
      SameMap(ShapeOf(at, repr), s);
      SameMap(ViewOf(at, repr), v[p := a]);
    }

    // ----- dispatch -----

    method Apply(c: Command, now: Time) returns (outcome: Outcome)
      requires Valid()
      modifies this, repr
      ensures Valid() && fresh(repr - old(repr))
      ensures (State(), outcome) == Metadata.Apply(old(State()), c, now)
    {
      if c.Heartbeat? {
        outcome := ApplyHeartbeat(c.addr, now);
      } else if c.RemoveDataNode? {
        outcome := ApplyRemoveDataNode(c.addr, now);
      } else if c.UnknownOp? {
        outcome := Err(UnknownCommand);
      } else {
        outcome := ApplyOnTree(c, now);
      }
    }

    method ApplyOnTree(c: Command, now: Time) returns (outcome: Outcome)
      requires Valid() && !c.Heartbeat? && !c.RemoveDataNode? && !c.UnknownOp?
      modifies this`at, this`repr, repr
      ensures Valid() && fresh(repr - old(repr))
      ensures (ViewOf(at, repr), outcome) == ApplyTree(old(ViewOf(at, repr)), c, now)
    {
      match c
      case Mkdir(path, id) => outcome := ApplyMkdir(path, id, now);
      case CreateFile(path, size, replicas, mode, id) =>
        outcome := ApplyCreateFile(path, size, replicas, mode, id, now);
      case Delete(path) => outcome := ApplyDelete(path, now);
      case Rename(path, dstPath) => outcome := ApplyRename(path, dstPath, now);
      case CompleteFile(_) => outcome := ApplyOnFile(c, now);
      case UpdateSize(_, _) => outcome := ApplyOnFile(c, now);
      case UpdateReplicas(_, _) => outcome := ApplyOnFile(c, now);
      case UpdateStatus(_, _) => outcome := ApplyOnFile(c, now);
    }

    method ApplyOnFile(c: Command, now: Time) returns (outcome: Outcome)
      requires Valid() && (c.CompleteFile? || c.UpdateSize? || c.UpdateReplicas? || c.UpdateStatus?)
      modifies repr
      ensures Valid()
      ensures (ViewOf(at, repr), outcome) == ApplyEdit(old(ViewOf(at, repr)), Components(c.path), c, now)
    {
      match c
      case CompleteFile(path) => outcome := ApplyCompleteFile(path, now);
      case UpdateSize(path, n) => outcome := ApplyUpdateSize(path, n, now);
      case UpdateReplicas(path, rs) => outcome := ApplyUpdateReplicas(path, rs, now);
      case UpdateStatus(path, status) => outcome := ApplyUpdateStatus(path, status, now);
    }

    // ----- snapshot and restore -----

    method ToSnapshot(e: Entry, ghost p: Path) returns (s: EntrySnapshot)
      requires Valid() && p in at && at[p] == e
      ensures Pictures(s, ViewOf(at, repr), p) && s.name == e.name
      decreases Under(at, p)
    {
      ghost var v := ViewOf(at, repr);
      var kids: map<string, EntrySnapshot> := map[];
      if e.isDir {
        var todo := e.children.Keys;
        while todo != {}
          invariant todo <= e.children.Keys && kids.Keys == e.children.Keys - todo
          invariant forall k | k in kids :: kids[k].name == k && Pictures(kids[k], v, Child(p, k))
        {
          var k :| k in todo;
          ChildUnder(p, k);
          var c := ToSnapshot(e.children[k], Child(p, k));
          kids, todo := kids[k := c], todo - {k};
        }
      }
      var attrs := Attrs(e.isDir, e.size, e.mode, e.createdAt, e.modTime, e.status, e.fileID, e.replicas);
      s := EntrySnapshot(e.name, attrs, if e.isDir then Children(kids) else Nil);
      ChildrenAre(p);
      PictureFromKids(s, v, p);
    }

    lemma ChildUnder(p: Path, k: string)
      requires Valid() && p in at && k in at[p].children
      ensures Child(p, k) in at && at[Child(p, k)] == at[p].children[k] && at[Child(p, k)].name == k
      ensures Under(at, Child(p, k)) < Under(at, p)
    {
      assert Linked(ShapeOf(at, repr), p, k);
      assert Placed(ShapeOf(at, repr), Child(p, k));
      assert p in Under(at, p) && p !in Under(at, Child(p, k));
    }

    lemma ChildrenAre(p: Path)
      requires Valid() && p in at
      ensures forall k :: k in at[p].children <==> Child(p, k) in at
      ensures !at[p].isDir ==> at[p].children == map[]
      ensures forall q | q != [] && p + q in at :: Child(p, q[0]) in at
    {
      var s := ShapeOf(at, repr);
      assert Placed(s, p);
      forall k
        ensures k in at[p].children <==> Child(p, k) in at
      {
        assert Linked(s, p, k);
      }
      forall q | q != [] && p + q in at
        ensures Child(p, q[0]) in at
      {
        assert Child(p, q[0]) <= p + q;
        PrefixInTree(s, "/", Child(p, q[0]), p + q);
      }
    }

    method Snapshot() returns (snap: MetaSnapshot)
      requires Valid()
      ensures SnapshotOf(snap, State())
    {
      var r := ToSnapshot(root, []);
      assert Placed(ShapeOf(at, repr), []);
      snap := MetaSnapshot(Some(r), dataNodes, Some(lastHeartbeat));
    }

    /** Without data the state stays as it is. */
    method Restore(data: Option<MetaSnapshot>)
      requires Valid()
      requires data.Some? ==> Rootlike(RootOf(data.value))
      modifies this
      ensures Valid()
      ensures data.None? ==> repr == old(repr) && State() == old(State())
      ensures data.Some? ==> fresh(repr) && SnapshotOf(data.value, State())
    {
      if data.Some? {
        dataNodes := data.value.dataNodes;
        lastHeartbeat := data.value.lastHeartbeat.GetOr(map[]);
        SetRoot(RootOf(data.value));
      }
    }

    method SetRoot(s: EntrySnapshot)
      requires Rootlike(s)
      modifies this`root, this`at, this`repr
      ensures Valid() && fresh(repr)
      ensures Pictures(s, ViewOf(at, repr), [])
    {
      var e, m, r := ToEntry(s);
      DrawsAll(s, ViewOf(m, r), Kids(s).Keys);
      DrawnIsPicture(s, ViewOf(m, r));
      ghost var shape, view := ShapeOf(m, r), ViewOf(m, r);
      root, at, repr := e, m, r;
      SameMap(ShapeOf(at, repr), shape);
      SameMap(ViewOf(at, repr), view);
    }

    // ----- what Valid says about the pointers -----

    /** The entry reached from the root by following child pointers, null when one is missing. */
    ghost function Follow(p: Path): Entry?
      reads this, repr
    {
      if p == [] then root
      else
        var up := Follow(Parent(p));
        if up == null || up !in repr || Last(p) !in up.children then null else up.children[Last(p)]
    }

    /** The index is no bookkeeping of its own: it lists what the pointers reach. */
    lemma IndexIsReachability(p: Path)
      requires Valid()
      ensures Follow(p) == if p in at then at[p] else null
    {
      if p != [] {
        IndexIsReachability(Parent(p));
        var s := ShapeOf(at, repr);
        assert p == Child(Parent(p), Last(p));
        if p in at {
          assert Placed(s, p);
        }
        if Parent(p) in at {
          assert Linked(s, Parent(p), Last(p));
        }
      }
    }

    /** The flat state of a valid server is a tree in the flat sense. */
    lemma TreeWellFormed()
      requires Valid()
      ensures WellFormed(ViewOf(at, repr))
    {
      var s, t := ShapeOf(at, repr), ViewOf(at, repr);
      forall p | p in t
        ensures Hangs(t, p)
      {
        assert Placed(s, p);
        if p != [] {
          assert Parent(p) <= p && Parent(p) != p;
          PrefixInTree(s, "/", Parent(p), p);
        }
      }
    }

    /** The pointers form a tree: one way to reach an entry, and none leads back to itself. */
    lemma PointersFormTree(p: Path, q: Path)
      requires Valid() && Follow(p) != null
      ensures Follow(q) == Follow(p) ==> q == p
      ensures p != [] ==> Follow(p).name == Last(p)
      ensures !Follow(p).isDir ==> Follow(p).children == map[]
      ensures q != [] ==> Follow(p + q) != Follow(p)
    {
      IndexIsReachability(p);
      IndexIsReachability(q);
      IndexIsReachability(p + q);
      var s := ShapeOf(at, repr);
      assert Apart(s, p, q) && Apart(s, p, p + q) && Placed(s, p);
      assert q != [] ==> |p + q| > |p|;
    }
  }

  /** The paths at and below p, which a walk below p has left to visit. */
  ghost function Under(at: Index, p: Path): set<Path> {
    set q | q in at && p <= q
  }

  /** Hangs the finished subtree c below e under the name k. */
  method HangChild(e: Entry, ghost m: Index, ghost r: set<Entry>, k: string, c: Entry, ghost cm: Index,
                   ghost cr: set<Entry>)
    requires Owned(m, r) && IsTree(ShapeOf(m, r), e.name) && m[[]] == e && e.isDir
    requires Owned(cm, cr) && IsTree(ShapeOf(cm, cr), k) && cm[[]] == c
    requires CanHang(ShapeOf(m, r), k, ShapeOf(cm, cr))
    requires r !! cr
    modifies e`children
    ensures e.children == old(e.children)[k := c]
    ensures Owned(Hang(m, k, cm), r + cr)
    ensures IsTree(ShapeOf(Hang(m, k, cm), r + cr), e.name)
    ensures ViewOf(Hang(m, k, cm), r + cr) == Hang(old(ViewOf(m, r)), k, old(ViewOf(cm, cr)))
  {
    HungIsTree(ShapeOf(m, r), e.name, k, ShapeOf(cm, cr));
    SetKid(e, m, r, k, c);
    HangMaps(m, r, k, cm, cr);
  }

  method SetKid(e: Entry, ghost m: Index, ghost r: set<Entry>, k: string, c: Entry)
    requires Owned(m, r) && OneParent(ShapeOf(m, r)) && [] in m && m[[]] == e
    modifies e`children
    ensures e.children == old(e.children)[k := c]
    ensures ShapeOf(m, r) == old(ShapeOf(m, r))[[] := WithChild(old(ShapeOf(m, r))[[]], k, c)]
    ensures ViewOf(m, r) == old(ViewOf(m, r))
  {
    OnlyAt(m, r, []);
    ghost var s, v := ShapeOf(m, r), ViewOf(m, r);
    e.children := e.children[k := c];
    SameMap(ShapeOf(m, r), s[[] := WithChild(s[[]], k, c)]);
    SameMap(ViewOf(m, r), v);
  }

  lemma HangMaps(m: Index, r: set<Entry>, k: string, cm: Index, cr: set<Entry>)
    requires Owned(m, r) && Owned(cm, cr)
    ensures Owned(Hang(m, k, cm), r + cr)
    ensures ShapeOf(Hang(m, k, cm), r + cr) == Hang(ShapeOf(m, r), k, ShapeOf(cm, cr))
    ensures ViewOf(Hang(m, k, cm), r + cr) == Hang(ViewOf(m, r), k, ViewOf(cm, cr))
  {
    HangShapes(m, r, k, cm, cr);
    HangViews(m, r, k, cm, cr);
  }

  lemma HangShapes(m: Index, r: set<Entry>, k: string, cm: Index, cr: set<Entry>)
    requires Owned(m, r) && Owned(cm, cr)
    ensures Owned(Hang(m, k, cm), r + cr)
    ensures ShapeOf(Hang(m, k, cm), r + cr) == Hang(ShapeOf(m, r), k, ShapeOf(cm, cr))
  {
    SameMap(ShapeOf(Hang(m, k, cm), r + cr), Hang(ShapeOf(m, r), k, ShapeOf(cm, cr)));
  }

  lemma HangViews(m: Index, r: set<Entry>, k: string, cm: Index, cr: set<Entry>)
    requires Owned(m, r) && Owned(cm, cr)
    ensures Owned(Hang(m, k, cm), r + cr)
    ensures ViewOf(Hang(m, k, cm), r + cr) == Hang(ViewOf(m, r), k, ViewOf(cm, cr))
  {
    SameMap(ViewOf(Hang(m, k, cm), r + cr), Hang(ViewOf(m, r), k, ViewOf(cm, cr)));
  }

  /** e heads a finished tree for the root of s and the children named in done. */
  ghost predicate Built(s: EntrySnapshot, e: Entry, m: Index, r: set<Entry>, done: set<string>)
    reads r
  {
    && Owned(m, r) && e in r && e.name == s.name && e.isDir == s.attrs.isDir
    && IsTree(ShapeOf(m, r), s.name) && m[[]] == e
    && DrawsPart(s, ViewOf(m, r), done)
  }

  method ToEntry(s: EntrySnapshot) returns (e: Entry, ghost m: Index, ghost r: set<Entry>)
    requires Fits(s)
    ensures fresh(r) && Built(s, e, m, r, Kids(s).Keys)
    decreases s, 2
  {
    e, m, r := BareEntry(s);
    if s.attrs.isDir {
      m, r := AddKids(s, e, m, r);
    } else {
      assert NodeFits(s, []) && NodeAt(s, []) == Some(s);
      assert Kids(s).Keys == {};
    }
  }

  /** All children of a directory's snapshot node. */
  method AddKids(s: EntrySnapshot, e: Entry, ghost m: Index, ghost r: set<Entry>)
    returns (ghost m': Index, ghost r': set<Entry>)
    requires Fits(s) && s.attrs.isDir && Built(s, e, m, r, {})
    modifies e`children
    ensures r <= r' && fresh(r' - r) && Built(s, e, m', r', Kids(s).Keys)
    decreases s, 1
  {
    m', r' := m, r;
    var todo := Kids(s).Keys;
    ghost var done: set<string> := {};
    while todo != {}
      invariant done + todo == Kids(s).Keys && done !! todo
      invariant r <= r' && fresh(r' - r) && Built(s, e, m', r', done)
    {
      var k :| k in todo;
      m', r' := AddKid(s, e, m', r', done, k);
      todo, done := todo - {k}, done + {k};
    }
    assert done == Kids(s).Keys;
  }

  /** The entry of a snapshot node, without children yet. */
  method BareEntry(s: EntrySnapshot) returns (e: Entry, ghost m: Index, ghost r: set<Entry>)
    ensures fresh(r) && Built(s, e, m, r, {})
  {
    e := new Entry(s.name, s.attrs);
    m, r := map[[] := e], {e};
    LoneTree(e, s);
  }

  method AddKid(s: EntrySnapshot, e: Entry, ghost m: Index, ghost r: set<Entry>, ghost done: set<string>, k: string)
    returns (ghost m': Index, ghost r': set<Entry>)
    requires Fits(s) && s.attrs.isDir && k in Kids(s) && k !in done && Built(s, e, m, r, done)
    modifies e`children
    ensures r <= r' && fresh(r' - r) && Built(s, e, m', r', done + {k})
    decreases s, 0
  {
    KidFits(s, k);
    var c, cm, cr := ToEntry(Kids(s)[k]);
    DrawsAll(Kids(s)[k], ViewOf(cm, cr), Kids(Kids(s)[k]).Keys);
    DrawNextKid(s, ViewOf(m, r), done, k, ViewOf(cm, cr));
    HangChild(e, m, r, k, c, cm, cr);
    m', r' := Hang(m, k, cm), r + cr;
  }

  lemma LoneTree(e: Entry, s: EntrySnapshot)
    requires e.children == map[] && e.View() == s.attrs
    ensures var m, r := map[[] := e], {e};
            Owned(m, r) && IsTree(ShapeOf(m, r), e.name) && DrawsPart(s, ViewOf(m, r), {})
  {
    LeafIsTree(e.Shape());
    assert ShapeOf(map[[] := e], {e}) == map[[] := e.Shape()];
  }

  lemma MoveShape(m: Index, repr: set<Entry>, src: Path, dst: Path)
    requires Owned(m, repr)
    ensures Owned(Move(m, src, dst), repr)
    ensures ShapeOf(Move(m, src, dst), repr) == Move(ShapeOf(m, repr), src, dst)
  {
  }

  /** What Relink has changed is a tree again once the index moves along. */
  lemma MovedTree(m: Index, repr: set<Entry>, s: map<Path, Node<Entry>>, src: Path, dst: Path)
    requires Owned(m, repr) && IsTree(s, "/") && Movable(s, src, dst) && ParentsStay(src, dst) && Parent(src) in s
    requires Reparented(s, src, dst, ShapeOf(m, repr))
    ensures var m' := Move(m, src, dst);
            && Owned(m', repr) && IsTree(ShapeOf(m', repr), "/")
            && m'[[]] == s[[]].self && m'[[]].isDir == s[[]].isDir
  {
    RelinkIsTree(s, "/", src, dst, ShapeOf(m, repr));
    MoveShape(m, repr, src, dst);
    assert ShapeOf(Move(m, src, dst), repr)[[]].self == Move(m, src, dst)[[]];
  }

  lemma MoveView(m: Index, repr: set<Entry>, src: Path, dst: Path)
    requires Owned(m, repr)
    ensures Owned(Move(m, src, dst), repr)
    ensures ViewOf(Move(m, src, dst), repr) == Move(ViewOf(m, repr), src, dst)
  {
  }

  /** Where a move leaves the entries it handled. */
  lemma MovedKeys(m: Index, src: Path, dst: Path)
    requires ParentsStay(src, dst) && src in m && Parent(src) in m && Parent(dst) in m
    ensures var m' := Move(m, src, dst);
            && dst in m' && m'[dst] == m[src]
            && Parent(src) in m' && m'[Parent(src)] == m[Parent(src)]
            && Parent(dst) in m' && m'[Parent(dst)] == m[Parent(dst)]
  {
    assert src + [] == src && dst[|dst|..] == [];
  }

  lemma TouchBeside(t: Tree, p: Path, q: Path, a: Attrs, now: Time)
    requires p != q
    ensures Touch(t[q := a], p, now) == Touch(t, p, now)[q := a]
  {
  }
}
