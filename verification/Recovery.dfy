/** What a recovering file is protected from, and what not. */
module Recovery {
  import opened Paths
  import opened Subtrees
  import opened Metadata
  import opened Invariants
  import opened Identity

  /** The commands that end the recovery of the file at p, or give it another size. */
  predicate EndsRecovery(c: Command, p: Path) {
    match c
    case CreateFile(path, _, _, mode, _) => Components(path) == p && mode == OverwriteIfExists
    case CompleteFile(path) => Components(path) == p
    case UpdateStatus(path, status) => Components(path) == p && (status == COMPLETE || status == PENDING)
    case _ => false
  }

  /** The commands that take the file at p out of the tree: a delete at or above it, a rename onto it. */
  predicate TakesAway(t: Tree, c: Command, p: Path) {
    match c
    case Delete(path) => Components(path) != [] && Components(path) <= p
    case Rename(path, dstPath) =>
      var src, dst := Components(path), Components(dstPath);
      RenameOutcome(t, src, dst) == Ok && dst == p && src != p
    case _ => false
  }

  /** Where the entry at p is after a command that does not take it away. */
  function Place(t: Tree, c: Command, p: Path): Path {
    if c.Rename? && RenameOutcome(t, Components(c.path), Components(c.dstPath)) == Ok && Components(c.path) <= p
    then Components(c.dstPath) + p[|Components(c.path)|..]
    else p
  }

  ghost predicate StillRecovering(t: Tree, p: Path, t': Tree, q: Path) {
    p in t && q in t' && !t'[q].isDir && t'[q].status == RECOVERING && t'[q].size == t[p].size
  }

  /** The file at p is gone after the command, or is where Place says, in recovery unless ended. */
  ghost predicate RecoveryDecided(t: Tree, p: Path, c: Command, t': Tree)
    requires p in t
  {
    if TakesAway(t, c, p) then forall q | q in t' :: Source(t, c, q) != p
    else
      var q := Place(t, c, p);
      && q in t' && Source(t, c, q) == p && t'[q].fileID == t[p].fileID
      && (StillRecovering(t, p, t', q) <==> !EndsRecovery(c, p))
  }

  /**
   A recovering file keeps its size and status, wherever it is moved, under exactly the commands
   that neither take it away nor end the recovery. UpdateSize is not among those, but an
   overwriting create is: it asks for no status.
   */
  lemma RecoveryEndsIff(t: Tree, p: Path, c: Command, now: Time)
    requires WellFormed(t) && IsFileAt(t, p) && t[p].status == RECOVERING
    ensures RecoveryDecided(t, p, c, ApplyTree(t, c, now).0)
  {
    assert Hangs(t, p);
    if c.Rename? {
      RenameDecides(t, p, c, now);
    } else if c.Delete? && Components(c.path) != [] && Components(c.path) <= p {
      WellFormedAbove(t, Components(c.path), p);
    }
  }

  lemma RenameDecides(t: Tree, p: Path, c: Command, now: Time)
    requires WellFormed(t) && IsFileAt(t, p) && t[p].status == RECOVERING && c.Rename?
    ensures RecoveryDecided(t, p, c, ApplyTree(t, c, now).0)
  {
    var src, dst := Components(c.path), Components(c.dstPath);
    if RenameOutcome(t, src, dst) == Ok {
      if dst == p && src != p {
        forall q | q in RenamedTree(t, src, dst, now)
          ensures Origin(src, dst, q) != p
        {
          NotFromTarget(t, p, src, q, now);
        }
      } else {
        RenameCarries(t, p, src, dst, now);
      }
    }
  }

  /** An accepted rename carries every entry it does not replace to its place, times aside. */
  lemma RenameCarries(t: Tree, p: Path, src: Path, dst: Path, now: Time)
    requires WellFormed(t) && IsFileAt(t, p) && RenameOutcome(t, src, dst) == Ok && (dst != p || src == p)
    ensures var q := if src <= p then dst + p[|src|..] else p;
            && q in RenamedTree(t, src, dst, now) && Origin(src, dst, q) == p
            && RenamedTree(t, src, dst, now)[q].(modTime := 0) == t[p].(modTime := 0)
  {
    RenameApart(t, src, dst);
    var q := if src <= p then dst + p[|src|..] else p;
    if src <= p {
      assert q[|dst|..] == p[|src|..] && src + p[|src|..] == p;
    } else if dst <= p {
      WellFormedAbove(t, dst, p);
    }
    var m := Move(t, src, dst);
    assert q in m;
    var m1 := Touch(m, Parent(src), now);
    TouchedAt(m, Parent(src), now, q);
    TouchedAt(m1, Parent(dst), now, q);
    TouchedAt(Touch(m1, Parent(dst), now), dst, now, q);
  }

  lemma NotFromTarget(t: Tree, p: Path, src: Path, q: Path, now: Time)
    requires WellFormed(t) && IsFileAt(t, p) && src != p && RenameOutcome(t, src, p) == Ok
    requires q in RenamedTree(t, src, p, now)
    ensures Origin(src, p, q) != p
  {
    RenameApart(t, src, p);
    if p <= q {
      assert src <= Origin(src, p, q);
    }
  }
}
