/**
 The garbage collector: the walk that collects live FileIDs, and the decision which of a
 node's files to delete.
 */
module GarbageCollector {
  import opened Paths
  import opened Subtrees
  import opened Metadata
  import opened RepairLists
  import opened ReplicaLists
  import opened MetadataServers

  const SECOND := 1_000_000_000
  const SAFETY_WINDOW := 30 * SECOND

  /** The IDs of the files at and below p. */
  ghost function FileIds(t: Tree, p: Path): set<FileId> {
    set q | q in t && p <= q && !t[q].isDir && t[q].fileID != "" :: t[q].fileID
  }

  /** The IDs to keep are exactly the non-empty ones of files; directories have none to keep. */
  lemma FileIdsAre(t: Tree, id: FileId)
    ensures id in FileIds(t, []) <==> id != "" && exists p | IsFileAt(t, p) :: t[p].fileID == id
  {
    if p :| IsFileAt(t, p) && t[p].fileID == id {
      assert [] <= p;
    }
  }

  class IdSet {
    var ids: set<FileId>

    constructor ()
      ensures ids == {}
    {
      ids := {};
    }
  }

  /** The IDs below some of the children of p. */
  ghost function KidIds(t: Tree, p: Path, names: set<string>): set<FileId> {
    set k, id | k in names && id in FileIds(t, Child(p, k)) :: id
  }

  lemma KidIdsGrow(t: Tree, p: Path, names: set<string>, k: string)
    ensures KidIds(t, p, names + {k}) == KidIds(t, p, names) + FileIds(t, Child(p, k))
  {
  }

  /** A directory holds exactly the files of its children. */
  lemma FileIdsOfDir(mds: MetadataServer, p: Path)
    requires mds.Valid() && p in mds.at && mds.at[p].isDir
    ensures FileIds(mds.State().tree, p) == KidIds(mds.State().tree, p, mds.at[p].children.Keys)
  {
    var t, names := mds.State().tree, mds.at[p].children.Keys;
    mds.ChildrenAre(p);
    forall id | id in FileIds(t, p)
      ensures id in KidIds(t, p, names)
    {
      var q :| q in t && p <= q && !t[q].isDir && t[q].fileID == id;
      assert q != p;
      assert q == p + q[|p|..];
      var k := q[|p|];
      assert q[|p|..][0] == k && Child(p, k) <= q;
      assert k in names && id in FileIds(t, Child(p, k));
    }
    forall id | id in KidIds(t, p, names)
      ensures id in FileIds(t, p)
    {
      var k :| k in names && id in FileIds(t, Child(p, k));
      assert p <= Child(p, k);
    }
  }

  lemma FileIdsOfFile(mds: MetadataServer, p: Path)
    requires mds.Valid() && p in mds.at && !mds.at[p].isDir
    ensures FileIds(mds.State().tree, p) == if mds.at[p].fileID == "" then {} else {mds.at[p].fileID}
  {
    var t, s := mds.State().tree, ShapeOf(mds.at, mds.repr);
    forall q | q in t && p <= q
      ensures q == p
    {
      BelowFile(s, "/", p, q);
    }
  }

  /** collectFileIDsRecursive, filling the caller's set. */
  method CollectFileIds(mds: MetadataServer, e: Entry, ghost t: Tree, ghost p: Path, ids: IdSet)
    requires mds.Valid() && p in mds.at && mds.at[p] == e && t == mds.State().tree
    modifies ids
    ensures ids.ids == old(ids.ids) + FileIds(t, p)
    decreases Under(mds.at, p)
  {
    if !e.isDir {
      FileIdsOfFile(mds, p);
      if e.fileID != "" {
        ids.ids := ids.ids + {e.fileID};
      }
      return;
    }
    FileIdsOfDir(mds, p);
    var todo := e.children.Keys;
    ghost var done: set<string> := {};
    while todo != {}
      invariant done + todo == e.children.Keys && done !! todo
      invariant ids.ids == old(ids.ids) + KidIds(t, p, done)
    {
      var k :| k in todo;
      mds.ChildUnder(p, k);
      KidIdsGrow(t, p, done, k);
      CollectFileIds(mds, e.children[k], t, Child(p, k), ids);
      todo, done := todo - {k}, done + {k};
    }
  }

  /** collectValidFileIDs: the IDs of all files in the tree. */
  method CollectValidFileIds(mds: MetadataServer) returns (ids: set<FileId>)
    requires mds.Valid()
    ensures ids == FileIds(mds.State().tree, [])
  {
    var found := new IdSet();
    CollectFileIds(mds, mds.root, mds.State().tree, [], found);
    return found.ids;
  }

  // ----- the decision -----

  datatype NodeFile = NodeFile(path: string, modTime: Time)

  /** Neither referenced nor recent. */
  predicate IsOrphan(nf: NodeFile, valid: set<FileId>, gcStart: Time) {
    var id := TrimPrefix(nf.path, DATA_DIR);
    !(id != "" && id in valid) && nf.modTime <= gcStart - SAFETY_WINDOW
  }

  lemma OrphanOfId(id: FileId, modTime: Time, valid: set<FileId>, gcStart: Time)
    ensures IsOrphan(NodeFile(DataPath(id), modTime), valid, gcStart) <==>
            (id == "" || id !in valid) && modTime <= gcStart - 30_000_000_000
  {
    assert DATA_DIR <= DataPath(id) && DataPath(id)[|DATA_DIR|..] == id;
  }

  /** The paths of the orphans in a listing, in its order. */
  function Orphans(nodeFiles: seq<NodeFile>, valid: set<FileId>, gcStart: Time): seq<string> {
    if nodeFiles == [] then []
    else
      var n := |nodeFiles| - 1;
      Orphans(nodeFiles[..n], valid, gcStart) +
      if IsOrphan(nodeFiles[n], valid, gcStart) then [nodeFiles[n].path] else []
  }

  lemma {:induction false} OrphansAre(nodeFiles: seq<NodeFile>, valid: set<FileId>, gcStart: Time, path: string)
    ensures path in Orphans(nodeFiles, valid, gcStart) <==>
            exists nf | nf in nodeFiles :: nf.path == path && IsOrphan(nf, valid, gcStart)
  {
    if nodeFiles != [] {
      var n := |nodeFiles| - 1;
      OrphansAre(nodeFiles[..n], valid, gcStart, path);
      assert nodeFiles == nodeFiles[..n] + [nodeFiles[n]];
    }
  }

  /** A file outside the data directory counts by its whole path. */
  lemma OrphanElsewhere(nf: NodeFile, valid: set<FileId>, gcStart: Time)
    requires !(DATA_DIR <= nf.path)
    ensures IsOrphan(nf, valid, gcStart) <==>
            (nf.path == "" || nf.path !in valid) && nf.modTime <= gcStart - 30_000_000_000
  {
  }

  /** Each file is judged by itself, and the listing's order is kept. */
  lemma {:induction false} OrphansInOrder(some: seq<NodeFile>, more: seq<NodeFile>, valid: set<FileId>, gcStart: Time)
    ensures Orphans(some + more, valid, gcStart) == Orphans(some, valid, gcStart) + Orphans(more, valid, gcStart)
    ensures |some| == 1 ==>
              Orphans(some, valid, gcStart) == if IsOrphan(some[0], valid, gcStart) then [some[0].path] else []
  {
    assert |some| == 1 ==> some[..0] == [];
    if more == [] {
      assert some + more == some;
    } else {
      var n := |more| - 1;
      OrphansInOrder(some, more[..n], valid, gcStart);
      assert (some + more)[..|some| + n] == some + more[..n];
    }
  }

  /** The loop of garbageCollectNode: the paths DeleteData is called for. */
  method ChooseOrphans(nodeFiles: seq<NodeFile>, valid: set<FileId>, gcStart: Time) returns (doomed: seq<string>)
    ensures doomed == Orphans(nodeFiles, valid, gcStart)
  {
    doomed := [];
    var cutoff := gcStart - SAFETY_WINDOW;
    for i := 0 to |nodeFiles|
      invariant doomed == Orphans(nodeFiles[..i], valid, gcStart)
    {
      var nf := nodeFiles[i];
      assert nodeFiles[..i + 1][..i] == nodeFiles[..i];
      var id := TrimPrefix(nf.path, DATA_DIR);
      if id != "" && id in valid {
        continue;
      }
      if nf.modTime > cutoff {
        continue;
      }
      doomed := doomed + [nf.path];
    }
    assert nodeFiles[..|nodeFiles|] == nodeFiles;
  }
}
