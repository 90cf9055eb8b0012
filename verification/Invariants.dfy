/**
 What every committed command keeps, whatever the clock reads: the flat tree stays a tree,
 and membership stays consistent.
 */
module Invariants {
  import opened Paths
  import opened Subtrees
  import opened Metadata

  // ----- the namespace stays a tree -----

  lemma WellFormedAbove(t: Tree, p: Path, q: Path)
    requires WellFormed(t) && q in t && p <= q
    ensures p in t && (p != q ==> t[p].isDir)
    decreases |q|
  {
    if p != q {
      assert Hangs(t, q);
      ParentBelow(p, q);
      WellFormedAbove(t, p, Parent(q));
    }
  }

  /** A rename that is accepted moves something that neither contains nor is contained in its target. */
  lemma RenameApart(t: Tree, src: Path, dst: Path)
    requires WellFormed(t) && RenameOutcome(t, src, dst) == Ok
    ensures ParentsStay(src, dst) && IsDirAt(t, Parent(src))
    ensures dst <= src ==> dst == src
    ensures src <= dst ==> dst == src
  {
    assert Hangs(t, src) && Parent(src) <= src;
    if src <= Parent(dst) {
      WellFormedAbove(t, src, Parent(dst));
    }
    if dst <= src {
      WellFormedAbove(t, dst, src);
    }
    if src <= dst && src != dst {
      ParentBelow(src, dst);
    }
  }

  lemma SliceParent(r: Path, n: nat)
    requires n < |r|
    ensures Parent(r)[n..] == Parent(r[n..])
  {
  }

  lemma MoveHangs(t: Tree, src: Path, dst: Path, r: Path)
    requires WellFormed(t) && IsPath(dst) && RenameOutcome(t, src, dst) == Ok
    requires r in Move(t, src, dst)
    ensures Hangs(Move(t, src, dst), r)
  {
    RenameApart(t, src, dst);
    var o := Origin(src, dst, r);
    assert Hangs(t, o);
    if r == [] {
    } else if dst <= r && r != dst {
      var q := r[|dst|..];
      ParentBelow(dst, r);
      assert r == dst + q;
      SliceParent(r, |dst|);
      assert Parent(o) == src + Parent(q);
      assert forall i | 0 <= i < |q| :: q[i] == o[|src| + i];
    } else if r != dst {
      assert Parent(r) <= r;
    }
  }

  lemma EditKeepsTree(t: Tree, p: Path, a: Attrs)
    requires WellFormed(t) && p in t && a.isDir == t[p].isDir
    ensures WellFormed(t[p := a])
  {
    var t' := t[p := a];
    forall q | q in t'
      ensures Hangs(t', q)
    {
      assert Hangs(t, q);
    }
  }

  lemma TouchKeepsTree(t: Tree, p: Path, now: Time)
    requires WellFormed(t)
    ensures WellFormed(Touch(t, p, now))
  {
    if p in t {
      EditKeepsTree(t, p, t[p].(modTime := now));
    }
  }

  lemma AddKeepsTree(t: Tree, p: Path, a: Attrs)
    requires WellFormed(t) && p != [] && IsPath(p) && IsDirAt(t, Parent(p)) && !IsDirAt(t, p)
    ensures WellFormed(t[p := a])
  {
    var t' := t[p := a];
    forall q | q in t'
      ensures Hangs(t', q)
    {
      assert q != p ==> Hangs(t, q);
    }
  }

  lemma PruneKeepsTree(t: Tree, p: Path)
    requires WellFormed(t) && p != []
    ensures WellFormed(Prune(t, p))
  {
    forall q | q in Prune(t, p)
      ensures Hangs(Prune(t, p), q)
    {
      assert Hangs(t, q);
      assert q != [] ==> Parent(q) <= q;
    }
  }

  lemma RenameKeepsTree(t: Tree, src: Path, dst: Path, now: Time)
    requires WellFormed(t) && IsPath(dst) && RenameOutcome(t, src, dst) == Ok
    ensures WellFormed(RenamedTree(t, src, dst, now))
  {
    RenameApart(t, src, dst);
    var m := Move(t, src, dst);
    forall r | r in m
      ensures Hangs(m, r)
    {
      MoveHangs(t, src, dst, r);
    }
    TouchKeepsTree(m, Parent(src), now);
    TouchKeepsTree(Touch(m, Parent(src), now), Parent(dst), now);
    TouchKeepsTree(Touch(Touch(m, Parent(src), now), Parent(dst), now), dst, now);
  }

  lemma ApplyKeepsTree(t: Tree, c: Command, now: Time)
    requires WellFormed(t)
    ensures WellFormed(ApplyTree(t, c, now).0)
  {
    match c
    case Mkdir(path, id) =>
      var p := Components(path);
      ComponentsAreNames(path);
      if ApplyMkdir(t, p, id, now).0 != t {
        TouchKeepsTree(t, Parent(p), now);
        AddKeepsTree(Touch(t, Parent(p), now), p, DirAttrs(id, now));
      }
    case CreateFile(path, size, replicas, mode, id) =>
      var p := Components(path);
      ComponentsAreNames(path);
      var t' := ApplyCreate(t, p, size, replicas, mode, id, now).0;
      if t' != t {
        TouchKeepsTree(t, Parent(p), now);
        AddKeepsTree(Touch(t, Parent(p), now), p, t'[p]);
      }
    case Delete(path) =>
      var p := Components(path);
      if p != [] && p in t {
        PruneKeepsTree(t, p);
        TouchKeepsTree(Prune(t, p), Parent(p), now);
      }
    case Rename(path, dstPath) =>
      ComponentsAreNames(dstPath);
      if RenameOutcome(t, Components(path), Components(dstPath)) == Ok {
        RenameKeepsTree(t, Components(path), Components(dstPath), now);
      }
    case CompleteFile(path) => EditTreeKept(t, Components(path), c, now);
    case UpdateSize(path, _) => EditTreeKept(t, Components(path), c, now);
    case UpdateReplicas(path, _) => EditTreeKept(t, Components(path), c, now);
    case UpdateStatus(path, _) => EditTreeKept(t, Components(path), c, now);
    case _ =>
  }

  lemma EditTreeKept(t: Tree, p: Path, c: Command, now: Time)
    requires WellFormed(t)
    ensures WellFormed(ApplyEdit(t, p, c, now).0)
  {
    if IsFileAt(t, p) {
      EditKeepsTree(t, p, EditFile(t[p], c).0.(modTime := now));
    }
  }

  // ----- membership -----

  ghost predicate Distinct<T(!new)>(s: seq<T>) {
    forall i, j | 0 <= i < j < |s| :: s[i] != s[j]
  }

  /** No node is listed twice, and the listed nodes are exactly those with a heartbeat time. */
  ghost predicate MembersAgree(m: Meta) {
    && Distinct(m.nodes)
    && (forall a :: a in m.nodes <==> a in m.beats)
  }

  lemma {:induction false} RemoveFirstDistinct(nodes: seq<Addr>, addr: Addr)
    requires Distinct(nodes)
    ensures Distinct(RemoveFirst(nodes, addr))
    ensures forall a :: a in RemoveFirst(nodes, addr) <==> a in nodes && a != addr
  {
    if nodes != [] {
      assert forall a :: a in nodes <==> a == nodes[0] || a in nodes[1..];
      assert forall i | 1 <= i < |nodes| :: nodes[i] == nodes[1..][i - 1];
      if nodes[0] != addr {
        RemoveFirstDistinct(nodes[1..], addr);
        var rest := RemoveFirst(nodes[1..], addr);
        assert nodes[0] !in rest;
        assert forall a :: a in [nodes[0]] + rest <==> a == nodes[0] || a in rest;
      }
    }
  }

  lemma ApplyKeepsMembers(m: Meta, c: Command, now: Time)
    requires MembersAgree(m)
    ensures MembersAgree(Apply(m, c, now).0)
  {
    match c
    case RemoveDataNode(addr) => RemoveFirstDistinct(m.nodes, addr);
    case Heartbeat(addr) => RegisterDistinct(m.nodes, addr);
    case _ => assert Apply(m, c, now).0 == m.(tree := Apply(m, c, now).0.tree);
  }

  lemma RegisterDistinct(nodes: seq<Addr>, addr: Addr)
    requires Distinct(nodes)
    ensures Distinct(Register(nodes, addr))
    ensures forall a :: a in Register(nodes, addr) <==> a in nodes || a == addr
  {
  }
}
