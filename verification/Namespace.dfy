/** What the namespace commands promise their callers, read off the flat map. */
module Namespace {
  import opened Paths
  import opened Subtrees
  import opened Metadata
  import opened Invariants

  /** The same attributes but for the modification time. */
  predicate SameFile(a: Attrs, b: Attrs) {
    a.(modTime := 0) == b.(modTime := 0)
  }

  ghost predicate SameFileAt(t: Tree, u: Tree, p: Path) {
    if p in t then p in u && SameFile(t[p], u[p]) else p !in u
  }

  /** The same paths with the same attributes, modification times aside. */
  ghost predicate SameFiles(t: Tree, u: Tree) {
    forall p {:trigger SameFileAt(t, u, p)} :: SameFileAt(t, u, p)
  }

  /** Rename succeeds exactly under these conditions. */
  lemma RenameAcceptedIff(t: Tree, src: Path, dst: Path, now: Time)
    ensures ApplyRename(t, src, dst, now).1 == Ok <==>
            && src != [] && src in t
            && dst != [] && IsDirAt(t, Parent(dst)) && !IsDirAt(t, dst)
            && !(IsDirAt(t, src) && src <= dst)
  {
    if dst != [] && src <= dst && src != dst {
      ParentBelow(src, dst);
    }
    if dst != [] && src <= Parent(dst) {
      assert Parent(dst) <= dst;
    }
  }

  lemma RenamedTimes(t: Tree, src: Path, dst: Path, now: Time, r: Path)
    requires src != [] && dst != []
    ensures SameFileAt(Move(t, src, dst), RenamedTree(t, src, dst, now), r)
    ensures r in Move(t, src, dst) && r != Parent(src) && r != Parent(dst) && r != dst ==>
            RenamedTree(t, src, dst, now)[r] == Move(t, src, dst)[r]
  {
    var m := Move(t, src, dst);
    var m1 := Touch(m, Parent(src), now);
    var m2 := Touch(m1, Parent(dst), now);
    assert SameFileAt(m, m1, r) && SameFileAt(m1, m2, r);
  }

  /**
   A successful rename relabels the paths under src and nothing else: every path below src
   reappears below dst, nothing is left at src, an old file at dst is gone, and every other
   path is as before; only the two parents' modification times change there.
   */
  lemma RenameRelabels(t: Tree, src: Path, dst: Path, now: Time, q: Path)
    requires WellFormed(t) && ApplyRename(t, src, dst, now).1 == Ok
    ensures var t' := ApplyRename(t, src, dst, now).0;
            && (dst + q in t' <==> src + q in t)
            && (src + q in t ==> SameFile(t'[dst + q], t[src + q]) && (q != [] ==> t'[dst + q] == t[src + q]))
            && (src != dst ==> src + q !in t')
            && (!(src <= q) && !(dst <= q) ==>
                  SameFileAt(t, t', q) && (q in t && q != Parent(src) && q != Parent(dst) ==> t'[q] == t[q]))
  {
    RenameApart(t, src, dst);
    var r := dst + q;
    assert r[|dst|..] == q && Origin(src, dst, r) == src + q;
    RenamedTimes(t, src, dst, now, r);
    if q == [] {
      assert r == dst && src + q == src;
    } else {
      assert |r| > |dst| && dst <= r;
      assert r != Parent(src) && r != Parent(dst) && r != dst;
    }
    RenamedTimes(t, src, dst, now, q);
    if src != dst {
      RenameLeavesNothing(t, src, dst, now, src + q);
    }
  }

  lemma RenameLeavesNothing(t: Tree, src: Path, dst: Path, now: Time, r: Path)
    requires WellFormed(t) && ApplyRename(t, src, dst, now).1 == Ok && src <= r && src != dst
    ensures r !in ApplyRename(t, src, dst, now).0
  {
    RenameApart(t, src, dst);
    RenamedTimes(t, src, dst, now, r);
    if dst <= r {
      // Neither of src and dst is above the other, so nothing is below both.
      Comparable(src, dst, r);
    }
  }

  /** Renaming to a free name and back is accepted and restores every path. */
  lemma RenameBack(t: Tree, src: Path, dst: Path, now: Time, later: Time)
    requires WellFormed(t) && IsPath(dst) && ApplyRename(t, src, dst, now).1 == Ok && dst !in t
    ensures var t' := ApplyRename(t, src, dst, now).0;
            ApplyRename(t', dst, src, later).1 == Ok && SameFiles(t, ApplyRename(t', dst, src, later).0)
  {
    var t' := ApplyRename(t, src, dst, now).0;
    RenameApart(t, src, dst);
    RenameRelabels(t, src, dst, now, []);
    RenameRelabels(t, src, dst, now, Parent(src));
    assert src + [] == src && dst + [] == dst;
    var back := ApplyRename(t', dst, src, later).0;
    assert ApplyRename(t', dst, src, later).1 == Ok;
    forall r
      ensures SameFileAt(t, back, r)
    {
      RenameBackAt(t, src, dst, now, later, r);
    }
  }

  lemma RenameBackAt(t: Tree, src: Path, dst: Path, now: Time, later: Time, r: Path)
    requires WellFormed(t) && ApplyRename(t, src, dst, now).1 == Ok && dst !in t
    requires ParentsStay(src, dst) && !(dst <= src)
    ensures var t' := ApplyRename(t, src, dst, now).0;
            SameFileAt(t, RenamedTree(t', dst, src, later), r)
  {
    var t' := ApplyRename(t, src, dst, now).0;
    RenamedTimes(t', dst, src, later, r);
    var o := Origin(dst, src, r);
    RenamedTimes(t, src, dst, now, o);
    if src <= r {
      var q := r[|src|..];
      assert r == src + q && o == dst + q && o[|dst|..] == q;
      assert Origin(src, dst, o) == r;
    } else if dst <= r {
      if r in t {
        WellFormedAbove(t, dst, r);
      }
    }
  }

  /** Delete succeeds exactly on existing paths below the root, and removes the path with all below it. */
  lemma DeleteRemovesSubtree(t: Tree, p: Path, now: Time, q: Path)
    requires WellFormed(t)
    ensures ApplyDelete(t, p, now).1 == Ok <==> p != [] && p in t
    ensures ApplyDelete(t, p, now).1 == Ok ==>
            var t' := ApplyDelete(t, p, now).0;
            if p <= q then q !in t' else SameFileAt(t, t', q) && (q in t && q != Parent(p) ==> t'[q] == t[q])
  {
  }

  /**
   The documentation calls removing a non-empty directory an error; the code drops any directory
   below the root with whatever is in it.
   */
  lemma DeleteTakesNonEmptyDirectory(t: Tree, p: Path, now: Time, q: Path)
    requires WellFormed(t) && IsDirAt(t, p) && p != [] && q in t && p <= q && p != q
    ensures var (t', outcome) := ApplyDelete(t, p, now);
            outcome == Ok && p !in t' && q !in t' && WellFormed(t')
  {
    DeleteRemovesSubtree(t, p, now, q);
    PruneKeepsTree(t, p);
    TouchKeepsTree(Prune(t, p), Parent(p), now);
  }

  /** Creating at a free path and deleting there gives the old tree back. */
  lemma CreateThenDelete(t: Tree, p: Path, size: int, replicas: seq<Replica>, mode: CreateMode, id: FileId, now: Time,
                         later: Time)
    requires WellFormed(t) && p !in t && ApplyCreate(t, p, size, replicas, mode, id, now).1 == Ok
    ensures var t' := ApplyCreate(t, p, size, replicas, mode, id, now).0;
            ApplyDelete(t', p, later).1 == Ok && SameFiles(t, ApplyDelete(t', p, later).0)
  {
    var t' := ApplyCreate(t, p, size, replicas, mode, id, now).0;
    var t'' := ApplyDelete(t', p, later).0;
    forall q
      ensures SameFileAt(t, t'', q)
    {
      if p <= q && q in t {
        WellFormedAbove(t, p, q);
      }
    }
  }

  /**
   Create succeeds exactly under these conditions. The new file is pending with the given size
   and replicas; one that is overwritten keeps its ID and creation time; nothing else changes.
   */
  lemma CreateAddsOne(t: Tree, p: Path, size: int, replicas: seq<Replica>, mode: CreateMode, id: FileId, now: Time,
                      q: Path)
    ensures ApplyCreate(t, p, size, replicas, mode, id, now).1 == Ok <==>
            p != [] && IsDirAt(t, Parent(p)) && (p in t ==> !t[p].isDir && mode == OverwriteIfExists)
    ensures ApplyCreate(t, p, size, replicas, mode, id, now).1 == Ok ==>
            var t' := ApplyCreate(t, p, size, replicas, mode, id, now).0;
            && IsFileAt(t', p) && t'[p].status == PENDING && t'[p].size == size && t'[p].replicas == replicas
            && t'[p].fileID == (if p in t then t[p].fileID else id)
            && t'[p].createdAt == (if p in t then t[p].createdAt else now)
            && (q != p ==> SameFileAt(t, t', q) && (q in t && q != Parent(p) ==> t'[q] == t[q]))
    ensures ApplyCreate(t, p, size, replicas, mode, id, now).1 != Ok ==>
              ApplyCreate(t, p, size, replicas, mode, id, now).0 == t
  {
  }

  /** Every command on a file leaves its identity alone and all other paths untouched. */
  lemma FileCommandsTouchOne(t: Tree, p: Path, c: Command, now: Time, q: Path)
    ensures ApplyEdit(t, p, c, now).1 == Ok ==>
            var t' := ApplyEdit(t, p, c, now).0;
            && IsFileAt(t, p) && t'.Keys == t.Keys && (q in t && q != p ==> t'[q] == t[q])
            && !t'[p].isDir && t'[p].fileID == t[p].fileID
            && t'[p].createdAt == t[p].createdAt && t'[p].mode == t[p].mode
            && (!c.UpdateSize? ==> t'[p].size == t[p].size)
            && (!c.UpdateReplicas? ==> t'[p].replicas == t[p].replicas)
            && (!c.CompleteFile? && !c.UpdateStatus? ==> t'[p].status == t[p].status)
    ensures ApplyEdit(t, p, c, now).1 != Ok ==> ApplyEdit(t, p, c, now).0 == t
  {
  }

  /** The paths a command is about: its own path, and what lies below those it deletes or moves. */
  predicate Concerns(c: Command, q: Path) {
    match c
    case Delete(path) => Components(path) <= q
    case Rename(path, dstPath) => Components(path) <= q || Components(dstPath) <= q
    case Heartbeat(_) => false
    case RemoveDataNode(_) => false
    case UnknownOp(_) => false
    case _ => q == Components(c.path)
  }

  /** The command names a child of q. */
  predicate NamesChildOf(c: Command, q: Path) {
    match c
    case Rename(path, dstPath) =>
      (Components(path) != [] && Parent(Components(path)) == q) ||
      (Components(dstPath) != [] && Parent(Components(dstPath)) == q)
    case Heartbeat(_) => false
    case RemoveDataNode(_) => false
    case UnknownOp(_) => false
    case _ => Components(c.path) != [] && Parent(Components(c.path)) == q
  }

  /**
   A refused command changes nothing. An accepted one leaves every path it is not about as it was,
   but for the modification time of directories it names a child of.
   */
  lemma OnlyConcerned(t: Tree, c: Command, now: Time, q: Path)
    requires WellFormed(t)
    ensures ApplyTree(t, c, now).1 != Ok ==> ApplyTree(t, c, now).0 == t
    ensures !Concerns(c, q) ==>
              var t' := ApplyTree(t, c, now).0;
              SameFileAt(t, t', q) && (q in t && !NamesChildOf(c, q) ==> t'[q] == t[q])
  {
    match c
    case CreateFile(path, size, replicas, mode, id) =>
      CreateAddsOne(t, Components(path), size, replicas, mode, id, now, q);
    case Delete(path) => DeleteRemovesSubtree(t, Components(path), now, q);
    case Rename(path, dstPath) =>
      if ApplyTree(t, c, now).1 == Ok {
        RenameRelabels(t, Components(path), Components(dstPath), now, q);
      }
    case CompleteFile(path) => FileCommandsTouchOne(t, Components(path), c, now, q);
    case UpdateSize(path, _) => FileCommandsTouchOne(t, Components(path), c, now, q);
    case UpdateReplicas(path, _) => FileCommandsTouchOne(t, Components(path), c, now, q);
    case UpdateStatus(path, _) => FileCommandsTouchOne(t, Components(path), c, now, q);
    case _ =>
  }
}
