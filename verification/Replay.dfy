/** One metadata server fed with committed commands, taken down and restored from snapshots at any points. */
module Replay {
  import opened Paths
  import opened Metadata
  import opened MetadataServers
  import opened Options
  import opened Snapshots
  import opened Logs
  import opened Determinism

  /** Snapshot, encode, decode, restore: the heap is rebuilt and stands for the same state. */
  method Reload(mds: MetadataServer)
    requires mds.Valid()
    modifies mds
    ensures mds.Valid() && fresh(mds.repr)
    ensures mds.State() == old(mds.State())
  {
    ghost var m := mds.State();
    var snap := mds.Snapshot();
    mds.TreeWellFormed();
    RestoreRoundTrip(snap, m, m);
    mds.Restore(Some(TransmitMeta(snap)));
    RestoreRoundTrip(snap, m, mds.State());
  }

  /** The state is that of the committed commands alone, wherever checkpoints came in between. */
  method RunEvents(mds: MetadataServer, events: seq<Event>)
    requires mds.Valid()
    modifies mds, mds.repr
    ensures mds.Valid()
    ensures mds.State() == After(old(mds.State()), Commits(events))
  {
    ghost var m := mds.State();
    for i := 0 to |events|
      invariant mds.Valid() && fresh(mds.repr - old(mds.repr))
      invariant mds.State() == After(m, Commits(events[..i]))
    {
      CommitsNext(m, events, i);
      match events[i]
      case Commit(entry) =>
        var outcome := mds.Apply(entry.cmd, entry.now);
      case Checkpoint =>
        Reload(mds);
    }
    assert events[..|events|] == events;
  }

  lemma CommitsNext(m: Meta, events: seq<Event>, i: nat)
    requires i < |events|
    ensures After(m, Commits(events[..i + 1])) ==
            match events[i]
            case Commit(entry) => Apply(After(m, Commits(events[..i])), entry.cmd, entry.now).0
            case Checkpoint => After(m, Commits(events[..i]))
  {
    var log, upTo := Commits(events[..i]), events[..i + 1];
    assert upTo[..i] == events[..i];
    if events[i].Commit? {
      assert (log + [events[i].entry])[..|log|] == log;
    } else {
      assert Commits(upTo) == log + [] == log;
    }
  }
}
