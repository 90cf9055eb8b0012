/**
 What every command reports and leaves behind, attribute by attribute, read at any one path q.
 Modes and statuses are written out as the code has them.
 */
module Effects {
  import opened Paths
  import opened Subtrees
  import opened Metadata
  import opened Invariants

  /** Node list and heartbeats are the same. */
  predicate SameMembers(m: Meta, m': Meta) {
    m'.nodes == m.nodes && m'.beats == m.beats
  }

  lemma NewServer(now: Time)
    ensures InitialMeta(now) == Meta(map[[] := Attrs(true, 0, 493, now, now, "", "", [])], [], map[])
  {
  }

  lemma HeartbeatDoes(m: Meta, addr: Addr, now: Time)
    ensures var (m', outcome) := Apply(m, Heartbeat(addr), now);
            && outcome == Ok && m'.tree == m.tree && m'.beats == m.beats[addr := now]
            && m'.nodes == if addr in m.nodes then m.nodes else m.nodes + [addr]
  {
  }

  /** i is where the address first occurs, if it does. */
  lemma {:induction false} RemoveFirstIs(nodes: seq<Addr>, addr: Addr, i: nat)
    requires i < |nodes| && nodes[i] == addr && addr !in nodes[..i]
    ensures RemoveFirst(nodes, addr) == nodes[..i] + nodes[i + 1..]
  {
    if i > 0 {
      assert nodes[..i][0] == nodes[0] && nodes[1..][..i - 1] == nodes[..i][1..];
      RemoveFirstIs(nodes[1..], addr, i - 1);
      assert nodes[..i] == [nodes[0]] + nodes[1..][..i - 1];
    }
  }

  lemma {:induction false} RemoveFirstNone(nodes: seq<Addr>, addr: Addr)
    requires addr !in nodes
    ensures RemoveFirst(nodes, addr) == nodes
  {
    if nodes != [] {
      RemoveFirstNone(nodes[1..], addr);
    }
  }

  lemma RemoveDataNodeDoes(m: Meta, addr: Addr, now: Time, i: nat)
    ensures var (m', outcome) := Apply(m, RemoveDataNode(addr), now);
            && outcome == Ok && m'.tree == m.tree && m'.beats == m.beats - {addr}
            && (addr !in m.nodes ==> m'.nodes == m.nodes)
            && (i < |m.nodes| && m.nodes[i] == addr && addr !in m.nodes[..i] ==>
                  m'.nodes == m.nodes[..i] + m.nodes[i + 1..])
  {
    if addr !in m.nodes {
      RemoveFirstNone(m.nodes, addr);
    } else if i < |m.nodes| && m.nodes[i] == addr && addr !in m.nodes[..i] {
      RemoveFirstIs(m.nodes, addr, i);
    }
  }

  lemma UnknownDoes(m: Meta, op: string, now: Time)
    ensures Apply(m, UnknownOp(op), now) == (m, Err(UnknownCommand))
  {
  }

  /** A new directory has the command's ID and the time in both places; an existing one is accepted as it is. */
  lemma MkdirDoes(m: Meta, path: string, id: FileId, now: Time, q: Path)
    ensures var p, t, (m', outcome) := Components(path), m.tree, Apply(m, Mkdir(path, id), now);
            var t' := m'.tree;
            && SameMembers(m, m')
            && outcome == (if p == [] then Err(InvalidPath)
                           else if !IsDirAt(t, Parent(p)) then Err(ParentNotFound)
                           else if IsFileAt(t, p) then Err(NotADirectory)
                           else Ok)
            && (outcome != Ok || p in t ==> t' == t)
            && (outcome == Ok && p !in t ==>
                  && t'.Keys == t.Keys + {p}
                  && t'[p] == Attrs(true, 0, 493, now, now, "", id, [])
                  && (q in t ==> t'[q] == if q == Parent(p) then t[q].(modTime := now) else t[q]))
  {
  }

  /** A created file is pending; an overwritten one keeps its ID and creation time. */
  lemma CreateDoes(m: Meta, path: string, size: int, replicas: seq<Replica>, mode: CreateMode, id: FileId, now: Time,
                   q: Path)
    ensures var p, t, (m', outcome) :=
              Components(path), m.tree, Apply(m, CreateFile(path, size, replicas, mode, id), now);
            var t' := m'.tree;
            && SameMembers(m, m')
            && outcome == (if p == [] then Err(InvalidPath)
                           else if !IsDirAt(t, Parent(p)) then Err(ParentNotFound)
                           else if IsDirAt(t, p) then Err(IsADirectory)
                           else if IsFileAt(t, p) && mode != OverwriteIfExists then Err(AlreadyExists)
                           else Ok)
            && (outcome != Ok ==> t' == t)
            && (outcome == Ok ==>
                  && t'.Keys == t.Keys + {p}
                  && t'[p] == (if p in t
                               then Attrs(false, size, 420, t[p].createdAt, now, "pending", t[p].fileID, replicas)
                               else Attrs(false, size, 420, now, now, "pending", id, replicas))
                  && (q in t && q != p ==> t'[q] == if q == Parent(p) then t[q].(modTime := now) else t[q]))
  {
  }

  /** The path and everything below it go; of the rest only the parent's modification time changes. */
  lemma DeleteDoes(m: Meta, path: string, now: Time, q: Path)
    ensures var p, t, (m', outcome) := Components(path), m.tree, Apply(m, Delete(path), now);
            var t' := m'.tree;
            && SameMembers(m, m')
            && outcome == (if p == [] then Err(CannotDeleteRoot) else if p !in t then Err(NotFound) else Ok)
            && (outcome != Ok ==> t' == t)
            && (outcome == Ok ==>
                  && (q in t' <==> q in t && !(p <= q))
                  && (q in t' ==> t'[q] == if q == Parent(p) then t[q].(modTime := now) else t[q]))
  {
  }

  /**
   The moved entry and both parents get the time; what lies below the source keeps its attributes
   under its new path; nothing else changes.
   */
  lemma RenameDoes(m: Meta, path: string, dstPath: string, now: Time, q: Path)
    requires WellFormed(m.tree)
    ensures var src, dst, t := Components(path), Components(dstPath), m.tree;
            var (m', outcome) := Apply(m, Rename(path, dstPath), now);
            var t' := m'.tree;
            && SameMembers(m, m')
            && outcome == (if src == [] || dst == [] then Err(InvalidPath)
                           else if src !in t then Err(SourceNotFound)
                           else if t[src].isDir && src <= Parent(dst) then Err(IntoOwnSubtree)
                           else if !IsDirAt(t, Parent(dst)) then Err(DestinationParentNotFound)
                           else if IsDirAt(t, dst) then Err(DestinationIsDirectory)
                           else Ok)
            && (outcome != Ok ==> t' == t)
            && (outcome == Ok ==>
                  && dst in t' && t'[dst] == t[src].(modTime := now)
                  && (q != [] ==> (dst + q in t' <==> src + q in t) && (src + q in t ==> t'[dst + q] == t[src + q]))
                  && (src <= q && !(dst <= q) ==> q !in t')
                  && (!(src <= q) && !(dst <= q) ==>
                        && (q in t' <==> q in t)
                        && (q in t ==> t'[q] == if q == Parent(src) || q == Parent(dst) then t[q].(modTime := now)
                                                else t[q])))
  {
    var src, dst, t := Components(path), Components(dstPath), m.tree;
    if RenameOutcome(t, src, dst) == Ok {
      RenameApart(t, src, dst);
      RenamedAt(t, src, dst, now, dst);
      RenamedAt(t, src, dst, now, dst + q);
      RenamedAt(t, src, dst, now, q);
      assert dst[|dst|..] == [] && src + [] == src && (dst + q)[|dst|..] == q;
      assert q != [] ==> |dst + q| > |dst|;
    }
  }

  /** One path after a rename, from where it comes. */
  lemma RenamedAt(t: Tree, src: Path, dst: Path, now: Time, r: Path)
    requires src != [] && dst != []
    ensures var t', o := RenamedTree(t, src, dst, now), Origin(src, dst, r);
            && (r in t' <==> o in t && (dst <= r || !(src <= r)))
            && (r in t' ==>
                  t'[r] == if r == Parent(src) || r == Parent(dst) || r == dst then t[o].(modTime := now) else t[o])
  {
    var m := Move(t, src, dst);
    assert r in m ==> m[r] == t[Origin(src, dst, r)];
  }

  /** How the four commands on one file refuse, and the only entry they change. */
  lemma FileCommandDoes(m: Meta, c: Command, now: Time)
    requires c.CompleteFile? || c.UpdateSize? || c.UpdateReplicas? || c.UpdateStatus?
    ensures var p, t, (m', outcome) := Components(c.path), m.tree, Apply(m, c, now);
            && SameMembers(m, m')
            && outcome == (if p !in t then Err(NotFound)
                           else if t[p].isDir then Err(IsADirectory)
                           else if c.UpdateSize? && t[p].status == "recovering" then Err(FileRecovering)
                           else if c.UpdateReplicas? && c.newReplicas == [] then Err(EmptyReplicas)
                           else if c.UpdateStatus? && c.newStatus !in {"pending", "complete", "recovering"}
                           then Err(InvalidStatus)
                           else Ok)
            && (outcome != Ok ==> m'.tree == t)
            && (outcome == Ok ==> m'.tree == t[p := match c
                  case CompleteFile(_) => t[p].(status := "complete", modTime := now)
                  case UpdateSize(_, n) => t[p].(size := n, modTime := now)
                  case UpdateReplicas(_, rs) => t[p].(replicas := rs, modTime := now)
                  case UpdateStatus(_, s) => t[p].(status := s, modTime := now)])
  {
  }
}
