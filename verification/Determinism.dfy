/**
 Replicas agree: the same commands under different clocks, with snapshot and restore
 anywhere in between, leave states that differ in times only.
 */
module Determinism {
  import opened Paths
  import opened Subtrees
  import opened Metadata
  import opened Snapshots
  import opened Logs

  function Timeless(a: Attrs): Attrs {
    a.(createdAt := 0, modTime := 0)
  }

  ghost predicate SameAt(t: Tree, u: Tree, p: Path) {
    if p in t then p in u && Timeless(t[p]) == Timeless(u[p]) else p !in u
  }

  ghost predicate SameTree(t: Tree, u: Tree) {
    forall p {:trigger SameAt(t, u, p)} :: SameAt(t, u, p)
  }

  /** Equal but for createdAt, modTime and heartbeat times. */
  ghost predicate SameButTimes(m: Meta, n: Meta) {
    SameTree(m.tree, n.tree) && m.nodes == n.nodes && m.beats.Keys == n.beats.Keys
  }

  lemma TouchSame(t: Tree, u: Tree, p: Path, now: Time, now': Time)
    requires SameTree(t, u)
    ensures SameTree(Touch(t, p, now), Touch(u, p, now'))
  {
    forall q
      ensures SameAt(Touch(t, p, now), Touch(u, p, now'), q)
    {
      assert SameAt(t, u, q) && SameAt(t, u, p);
    }
  }

  lemma SetSame(t: Tree, u: Tree, p: Path, a: Attrs, b: Attrs)
    requires SameTree(t, u) && Timeless(a) == Timeless(b)
    ensures SameTree(t[p := a], u[p := b])
  {
    var t', u' := t[p := a], u[p := b];
    forall q
      ensures SameAt(t', u', q)
    {
      assert SameAt(t, u, q);
    }
  }

  lemma RenameSame(t: Tree, u: Tree, src: Path, dst: Path, now: Time, now': Time)
    requires SameTree(t, u) && src != [] && dst != []
    ensures SameTree(RenamedTree(t, src, dst, now), RenamedTree(u, src, dst, now'))
  {
    var mt, mu := Move(t, src, dst), Move(u, src, dst);
    forall q
      ensures SameAt(mt, mu, q)
    {
      assert SameAt(t, u, Origin(src, dst, q));
    }
    TouchSame(mt, mu, Parent(src), now, now');
    TouchSame(Touch(mt, Parent(src), now), Touch(mu, Parent(src), now'), Parent(dst), now, now');
    TouchSame(Touch(Touch(mt, Parent(src), now), Parent(dst), now),
              Touch(Touch(mu, Parent(src), now'), Parent(dst), now'), dst, now, now');
  }

  lemma EditSame(t: Tree, u: Tree, p: Path, c: Command, now: Time, now': Time)
    requires SameTree(t, u)
    ensures ApplyEdit(t, p, c, now).1 == ApplyEdit(u, p, c, now').1
    ensures SameTree(ApplyEdit(t, p, c, now).0, ApplyEdit(u, p, c, now').0)
  {
    assert SameAt(t, u, p);
    if IsFileAt(t, p) && EditFile(t[p], c).1 == Ok {
      SetSame(t, u, p, EditFile(t[p], c).0.(modTime := now), EditFile(u[p], c).0.(modTime := now'));
    }
  }

  lemma CreateSame(t: Tree, u: Tree, p: Path, size: int, replicas: seq<Replica>, mode: CreateMode, id: FileId,
                   now: Time, now': Time)
    requires SameTree(t, u)
    ensures ApplyCreate(t, p, size, replicas, mode, id, now).1 == ApplyCreate(u, p, size, replicas, mode, id, now').1
    ensures SameTree(ApplyCreate(t, p, size, replicas, mode, id, now).0,
                     ApplyCreate(u, p, size, replicas, mode, id, now').0)
  {
    assert SameAt(t, u, p);
    if p != [] {
      assert SameAt(t, u, Parent(p));
      if ApplyCreate(t, p, size, replicas, mode, id, now).1 == Ok {
        TouchSame(t, u, Parent(p), now, now');
        SetSame(Touch(t, Parent(p), now), Touch(u, Parent(p), now'), p,
                ApplyCreate(t, p, size, replicas, mode, id, now).0[p],
                ApplyCreate(u, p, size, replicas, mode, id, now').0[p]);
      }
    }
  }

  lemma MkdirSame(t: Tree, u: Tree, p: Path, id: FileId, now: Time, now': Time)
    requires SameTree(t, u)
    ensures ApplyMkdir(t, p, id, now).1 == ApplyMkdir(u, p, id, now').1
    ensures SameTree(ApplyMkdir(t, p, id, now).0, ApplyMkdir(u, p, id, now').0)
  {
    assert SameAt(t, u, p);
    if p != [] {
      assert SameAt(t, u, Parent(p));
      if IsDirAt(t, Parent(p)) && p !in t {
        TouchSame(t, u, Parent(p), now, now');
        SetSame(Touch(t, Parent(p), now), Touch(u, Parent(p), now'), p, DirAttrs(id, now), DirAttrs(id, now'));
      }
    }
  }

  lemma DeleteSame(t: Tree, u: Tree, p: Path, now: Time, now': Time)
    requires SameTree(t, u)
    ensures ApplyDelete(t, p, now).1 == ApplyDelete(u, p, now').1
    ensures SameTree(ApplyDelete(t, p, now).0, ApplyDelete(u, p, now').0)
  {
    assert SameAt(t, u, p);
    if p != [] && p in t {
      forall q
        ensures SameAt(Prune(t, p), Prune(u, p), q)
      {
        assert SameAt(t, u, q);
      }
      TouchSame(Prune(t, p), Prune(u, p), Parent(p), now, now');
    }
  }

  lemma RenameOutcomeSame(t: Tree, u: Tree, src: Path, dst: Path)
    requires SameTree(t, u)
    ensures RenameOutcome(t, src, dst) == RenameOutcome(u, src, dst)
  {
    assert SameAt(t, u, src) && SameAt(t, u, dst);
    if dst != [] {
      assert SameAt(t, u, Parent(dst));
    }
  }

  lemma ApplySame(t: Tree, u: Tree, c: Command, now: Time, now': Time)
    requires SameTree(t, u)
    ensures ApplyTree(t, c, now).1 == ApplyTree(u, c, now').1
    ensures SameTree(ApplyTree(t, c, now).0, ApplyTree(u, c, now').0)
  {
    match c
    case Mkdir(path, id) => MkdirSame(t, u, Components(path), id, now, now');
    case CreateFile(path, size, replicas, mode, id) =>
      CreateSame(t, u, Components(path), size, replicas, mode, id, now, now');
    case Delete(path) => DeleteSame(t, u, Components(path), now, now');
    case Rename(path, dstPath) =>
      var src, dst := Components(path), Components(dstPath);
      RenameOutcomeSame(t, u, src, dst);
      if RenameOutcome(t, src, dst) == Ok {
        RenameSame(t, u, src, dst, now, now');
      }
    case CompleteFile(path) => EditSame(t, u, Components(path), c, now, now');
    case UpdateSize(path, _) => EditSame(t, u, Components(path), c, now, now');
    case UpdateReplicas(path, _) => EditSame(t, u, Components(path), c, now, now');
    case UpdateStatus(path, _) => EditSame(t, u, Components(path), c, now, now');
    case _ =>
  }

  lemma StateSame(m: Meta, n: Meta, c: Command, now: Time, now': Time)
    requires SameButTimes(m, n)
    ensures SameButTimes(Apply(m, c, now).0, Apply(n, c, now').0)
    ensures Apply(m, c, now).1 == Apply(n, c, now').1
  {
    ApplySame(m.tree, n.tree, c, now, now');
    match c
    case Heartbeat(addr) =>
    case RemoveDataNode(addr) =>
    case _ =>
  }

  ghost predicate SameCommands(log: Log, log': Log) {
    |log| == |log'| && forall i | 0 <= i < |log| :: log[i].cmd == log'[i].cmd
  }

  lemma {:induction false} LogsSame(m: Meta, n: Meta, log: Log, log': Log)
    requires SameButTimes(m, n) && SameCommands(log, log')
    ensures SameButTimes(After(m, log), After(n, log'))
    ensures Outcomes(m, log) == Outcomes(n, log')
    decreases |log|
  {
    if log != [] {
      var k := |log| - 1;
      LogsSame(m, n, log[..k], log'[..k]);
      StateSame(After(m, log[..k]), After(n, log'[..k]), log[k].cmd, log[k].now, log'[k].now);
    }
  }

  // ----- snapshots in between -----

  datatype Event = Commit(entry: LogEntry) | Checkpoint

  /** The committed commands of an event list. */
  function Commits(events: seq<Event>): Log {
    if events == [] then []
    else
      var last := events[|events| - 1];
      Commits(events[..|events| - 1]) + if last.Commit? then [last.entry] else []
  }

  /** A replica takes a snapshot and comes back from its encoding. */
  ghost predicate Reloads(m: Meta, m': Meta) {
    exists snap :: SnapshotOf(snap, m) && SnapshotOf(TransmitMeta(snap), m')
  }

  ghost predicate Happens(m: Meta, e: Event, m': Meta) {
    match e
    case Commit(entry) => m' == Apply(m, entry.cmd, entry.now).0
    case Checkpoint => Reloads(m, m')
  }

  /** The states a replica goes through. */
  ghost predicate Trace(states: seq<Meta>, events: seq<Event>) {
    |states| == |events| + 1 && forall i | 0 <= i < |events| :: Happens(states[i], events[i], states[i + 1])
  }

  lemma ReloadKeepsState(m: Meta, m': Meta)
    requires Reloads(m, m')
    ensures m' == m
  {
    var snap :| SnapshotOf(snap, m) && SnapshotOf(TransmitMeta(snap), m');
    TransmitKeepsState(snap, m);
    SnapshotDetermines(TransmitMeta(snap), m, m');
  }

  lemma {:induction false} TraceFollowsLog(states: seq<Meta>, events: seq<Event>)
    requires Trace(states, events)
    ensures states[|events|] == After(states[0], Commits(events))
    decreases |events|
  {
    if events != [] {
      var k := |events| - 1;
      TraceFollowsLog(states[..k + 1], events[..k]);
      assert Happens(states[k], events[k], states[k + 1]);
      var log := Commits(events[..k]);
      if events[k].Commit? {
        assert (log + [events[k].entry])[..|log|] == log;
      } else {
        ReloadKeepsState(states[k], states[k + 1]);
        assert Commits(events) == log + [] == log;
      }
    }
  }

  /**
   Two replicas with the same commands, each with its own clock and its own checkpoints,
   end in the same state but for times, and report the same outcome for every command.
   */
  lemma ReplicasAgree(states: seq<Meta>, events: seq<Event>, states': seq<Meta>, events': seq<Event>)
    requires Trace(states, events) && Trace(states', events')
    requires SameCommands(Commits(events), Commits(events'))
    requires SameButTimes(states[0], states'[0])
    ensures SameButTimes(states[|events|], states'[|events'|])
    ensures Outcomes(states[0], Commits(events)) == Outcomes(states'[0], Commits(events'))
  {
    TraceFollowsLog(states, events);
    TraceFollowsLog(states', events');
    LogsSame(states[0], states'[0], Commits(events), Commits(events'));
  }
}
