/**
 FileID identity over whole runs: the ID of a file or directory is its inode number.

 IDs are drawn at random by the handlers; a run is assumed never to draw one twice.
 */
module Identity {
  import opened Paths
  import opened Subtrees
  import opened Metadata
  import opened Invariants
  import opened Logs

  /** The state after the first i commands of a log on an empty server. */
  function StateAt(start: Time, log: Log, i: nat): Meta
    requires i <= |log|
  {
    After(InitialMeta(start), log[..i])
  }

  predicate CarriesId(c: Command) {
    c.Mkdir? || c.CreateFile?
  }

  ghost predicate FreshIds(log: Log) {
    forall i, j | 0 <= i < j < |log| && CarriesId(log[i].cmd) && CarriesId(log[j].cmd) ::
      log[i].cmd.fileID != log[j].cmd.fileID
  }

  ghost predicate Issued(log: Log, id: FileId) {
    exists i | 0 <= i < |log| :: CarriesId(log[i].cmd) && log[i].cmd.fileID == id
  }

  /** Some entry below the root has this ID. */
  ghost predicate Live(t: Tree, id: FileId) {
    exists p | p in t && p != [] :: t[p].fileID == id
  }

  ghost predicate SameId(t: Tree, p: Path, q: Path) {
    p in t && q in t && p != [] && q != [] && t[p].fileID == t[q].fileID ==> p == q
  }

  ghost predicate UniqueIds(t: Tree) {
    forall p, q {:trigger SameId(t, p, q)} :: SameId(t, p, q)
  }

  // ----- one command -----

  /** Where the entry at p was before the command. */
  function Source(t: Tree, c: Command, p: Path): Path {
    if c.Rename? && RenameOutcome(t, Components(c.path), Components(c.dstPath)) == Ok
    then Origin(Components(c.path), Components(c.dstPath), p)
    else p
  }

  /** The entry at p is the one that was at its source: same ID, kind and creation time. */
  ghost predicate Inherits(t: Tree, c: Command, t': Tree, p: Path) {
    var o := Source(t, c, p);
    p in t' && o in t && o != []
    && t'[p].fileID == t[o].fileID && t'[p].isDir == t[o].isDir && t'[p].createdAt == t[o].createdAt
  }

  /** The entry at p was created by this command. */
  ghost predicate Born(t: Tree, c: Command, t': Tree, p: Path) {
    p in t' && CarriesId(c) && t'[p].fileID == c.fileID && p == Components(c.path) && p !in t
  }

  lemma StepOrigin(t: Tree, c: Command, now: Time, p: Path)
    requires WellFormed(t) && p in ApplyTree(t, c, now).0 && p != []
    ensures Inherits(t, c, ApplyTree(t, c, now).0, p) || Born(t, c, ApplyTree(t, c, now).0, p)
  {
    match c
    case Rename(path, dstPath) =>
      var src, dst := Components(path), Components(dstPath);
      if RenameOutcome(t, src, dst) == Ok {
        RenameOrigin(t, src, dst, now, p);
      }
    case _ =>
  }

  /** Touching changes modification times only. */
  lemma TouchedAt(t: Tree, u: Path, now: Time, p: Path)
    ensures p in Touch(t, u, now) <==> p in t
    ensures p in t ==> Touch(t, u, now)[p].(modTime := 0) == t[p].(modTime := 0)
  {
  }

  lemma RenameOrigin(t: Tree, src: Path, dst: Path, now: Time, p: Path)
    requires RenameOutcome(t, src, dst) == Ok && p in RenamedTree(t, src, dst, now) && p != []
    ensures var t' := RenamedTree(t, src, dst, now);
            var o := Origin(src, dst, p);
            && o in t && o != [] && t'[p].(modTime := 0) == t[o].(modTime := 0)
  {
    var m := Move(t, src, dst);
    var m1 := Touch(m, Parent(src), now);
    TouchedAt(m, Parent(src), now, p);
    TouchedAt(m1, Parent(dst), now, p);
    TouchedAt(Touch(m1, Parent(dst), now), dst, now, p);
    assert p in m && m[p] == t[Origin(src, dst, p)];
  }

  lemma SourceInjective(t: Tree, c: Command, now: Time, p: Path, q: Path)
    requires WellFormed(t) && p in ApplyTree(t, c, now).0 && q in ApplyTree(t, c, now).0
    requires Source(t, c, p) == Source(t, c, q)
    ensures p == q
  {
    if c.Rename? {
      var src, dst := Components(c.path), Components(c.dstPath);
      if RenameOutcome(t, src, dst) == Ok {
        OriginInjective(src, dst, p, q);
      }
    }
  }

  lemma OriginInjective(src: Path, dst: Path, p: Path, q: Path)
    requires Origin(src, dst, p) == Origin(src, dst, q)
    requires (dst <= p || !(src <= p)) && (dst <= q || !(src <= q))
    ensures p == q
  {
    if dst <= p {
      assert p == dst + p[|dst|..];
      assert src <= Origin(src, dst, p);
      assert p[|dst|..] == Origin(src, dst, p)[|src|..];
    }
    if dst <= q {
      assert q == dst + q[|dst|..];
      assert src <= Origin(src, dst, q);
      assert q[|dst|..] == Origin(src, dst, q)[|src|..];
    }
  }

  /** A command with an ID not in use keeps IDs unique, and only its own ID can be new. */
  lemma StepKeepsUnique(t: Tree, c: Command, now: Time)
    requires WellFormed(t) && UniqueIds(t)
    requires CarriesId(c) ==> !Live(t, c.fileID)
    ensures UniqueIds(ApplyTree(t, c, now).0)
  {
    var t' := ApplyTree(t, c, now).0;
    forall p, q
      ensures SameId(t', p, q)
    {
      if p in t' && q in t' && p != [] && q != [] && t'[p].fileID == t'[q].fileID {
        StepOrigin(t, c, now, p);
        StepOrigin(t, c, now, q);
        if Inherits(t, c, t', p) && Inherits(t, c, t', q) {
          assert SameId(t, Source(t, c, p), Source(t, c, q));
          SourceInjective(t, c, now, p, q);
        }
      }
    }
  }

  lemma StepLive(t: Tree, c: Command, now: Time, id: FileId)
    requires WellFormed(t) && Live(ApplyTree(t, c, now).0, id)
    ensures Live(t, id) || (CarriesId(c) && c.fileID == id)
  {
    var t' := ApplyTree(t, c, now).0;
    var p :| p in t' && p != [] && t'[p].fileID == id;
    StepOrigin(t, c, now, p);
  }

  lemma NotBroughtBack(t: Tree, c: Command, now: Time, id: FileId)
    requires WellFormed(t) && !Live(t, id) && (CarriesId(c) ==> c.fileID != id)
    ensures !Live(ApplyTree(t, c, now).0, id)
  {
    if Live(ApplyTree(t, c, now).0, id) {
      StepLive(t, c, now, id);
    }
  }

  // ----- whole runs -----

  lemma StateStep(start: Time, log: Log, i: nat)
    requires i < |log|
    ensures StateAt(start, log, i + 1) == Apply(StateAt(start, log, i), log[i].cmd, log[i].now).0
    ensures StateAt(start, log, i + 1).tree == ApplyTree(StateAt(start, log, i).tree, log[i].cmd, log[i].now).0
  {
    assert log[..i + 1][..i] == log[..i];
  }

  /** After every prefix of every log: a tree, consistent membership, and only issued IDs in use. */
  lemma {:induction false} StatesAreSound(start: Time, log: Log, i: nat)
    requires i <= |log|
    ensures WellFormed(StateAt(start, log, i).tree) && MembersAgree(StateAt(start, log, i))
    ensures forall id | Live(StateAt(start, log, i).tree, id) :: Issued(log[..i], id)
  {
    if i == 0 {
      var t := StateAt(start, log, 0).tree;
      assert t == InitialTree(start);
      assert Hangs(t, []);
    } else {
      var t, e := StateAt(start, log, i - 1).tree, log[i - 1];
      StatesAreSound(start, log, i - 1);
      StateStep(start, log, i - 1);
      ApplyKeepsTree(t, e.cmd, e.now);
      ApplyKeepsMembers(StateAt(start, log, i - 1), e.cmd, e.now);
      forall id | Live(StateAt(start, log, i).tree, id)
        ensures Issued(log[..i], id)
      {
        StepLive(t, e.cmd, e.now, id);
        if Live(t, id) {
          var j :| 0 <= j < i - 1 && CarriesId(log[..i - 1][j].cmd) && log[..i - 1][j].cmd.fileID == id;
          assert log[..i][j] == log[..i - 1][j];
        } else {
          assert log[..i][i - 1] == e;
        }
      }
    }
  }

  lemma NotYetLive(start: Time, log: Log, i: nat)
    requires FreshIds(log) && i < |log| && CarriesId(log[i].cmd)
    ensures !Live(StateAt(start, log, i).tree, log[i].cmd.fileID)
  {
    StatesAreSound(start, log, i);
  }

  /** No two entries ever share an ID. */
  lemma {:induction false} IdsStayUnique(start: Time, log: Log, i: nat)
    requires FreshIds(log) && i <= |log|
    ensures UniqueIds(StateAt(start, log, i).tree)
  {
    if i == 0 {
      assert StateAt(start, log, 0).tree == InitialTree(start);
    } else {
      var t, e := StateAt(start, log, i - 1).tree, log[i - 1];
      IdsStayUnique(start, log, i - 1);
      StatesAreSound(start, log, i - 1);
      StateStep(start, log, i - 1);
      if CarriesId(e.cmd) {
        NotYetLive(start, log, i - 1);
      }
      StepKeepsUnique(t, e.cmd, e.now);
    }
  }

  /** An ID that was in use is not the one any later command brings. */
  lemma UsedIsNotIssuedAgain(start: Time, log: Log, i: nat, j: nat, id: FileId)
    requires FreshIds(log) && i <= j < |log| && Live(StateAt(start, log, i).tree, id)
    ensures CarriesId(log[j].cmd) ==> log[j].cmd.fileID != id
  {
    StatesAreSound(start, log, i);
    var h :| 0 <= h < |log[..i]| && CarriesId(log[..i][h].cmd) && log[..i][h].cmd.fileID == id;
    assert log[h] == log[..i][h];
  }

  /** An ID that has left the tree never comes back. */
  lemma {:induction false} IdsNeverReturn(start: Time, log: Log, i: nat, j: nat, k: nat, id: FileId)
    requires FreshIds(log) && i <= j <= k <= |log|
    requires Live(StateAt(start, log, i).tree, id) && !Live(StateAt(start, log, j).tree, id)
    ensures !Live(StateAt(start, log, k).tree, id)
    decreases k
  {
    if j < k {
      var t, e, t' := StateAt(start, log, k - 1).tree, log[k - 1], StateAt(start, log, k).tree;
      IdsNeverReturn(start, log, i, j, k - 1, id);
      UsedIsNotIssuedAgain(start, log, i, k - 1, id);
      assert WellFormed(t) && t' == ApplyTree(t, e.cmd, e.now).0 by {
        StatesAreSound(start, log, k - 1);
        StateStep(start, log, k - 1);
      }
      NotBroughtBack(t, e.cmd, e.now, id);
    }
  }

  /** While an ID is in use its kind and creation time never change, wherever it is moved. */
  lemma {:induction false} IdKeepsKindAndBirth(start: Time, log: Log, i: nat, j: nat, p: Path, q: Path)
    requires FreshIds(log) && i <= j <= |log|
    requires p in StateAt(start, log, i).tree && p != []
    requires q in StateAt(start, log, j).tree && q != []
    requires StateAt(start, log, i).tree[p].fileID == StateAt(start, log, j).tree[q].fileID
    ensures StateAt(start, log, i).tree[p].isDir == StateAt(start, log, j).tree[q].isDir
    ensures StateAt(start, log, i).tree[p].createdAt == StateAt(start, log, j).tree[q].createdAt
    decreases j
  {
    if i == j {
      IdsStayUnique(start, log, i);
      assert SameId(StateAt(start, log, i).tree, p, q);
    } else {
      var t, e, t' := StateAt(start, log, j - 1).tree, log[j - 1], StateAt(start, log, j).tree;
      var id := StateAt(start, log, i).tree[p].fileID;
      assert Live(StateAt(start, log, i).tree, id);
      UsedIsNotIssuedAgain(start, log, i, j - 1, id);
      assert Inherits(t, e.cmd, t', q) by {
        StateStep(start, log, j - 1);
        StatesAreSound(start, log, j - 1);
        StepOrigin(t, e.cmd, e.now, q);
      }
      IdKeepsKindAndBirth(start, log, i, j - 1, p, Source(t, e.cmd, q));
    }
  }
}
