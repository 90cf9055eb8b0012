/**
 Snapshot values (metaSnapshot, entrySnapshot), what JSON does to them, and which state
 a snapshot stands for.
 */
module Snapshots {
  import opened Paths
  import opened Subtrees
  import opened Metadata
  import opened Options

  /** Go's children map, which may be nil. */
  datatype ChildMap = Nil | Children(entries: map<string, EntrySnapshot>)

  datatype EntrySnapshot = EntrySnapshot(name: string, attrs: Attrs, children: ChildMap)

  datatype MetaSnapshot = MetaSnapshot(
    root: Option<EntrySnapshot>,
    dataNodes: seq<Addr>,
    lastHeartbeat: Option<map<Addr, Time>>)

  /** Ranging over a nil map is ranging over an empty one. */
  function Kids(s: EntrySnapshot): map<string, EntrySnapshot> {
    match s.children
    case Nil => map[]
    case Children(m) => m
  }

  /** The snapshot node at a path below s. */
  function NodeAt(s: EntrySnapshot, q: Path): Option<EntrySnapshot>
    decreases |q|
  {
    if q == [] then Some(s)
    else if q[0] !in Kids(s) then None
    else NodeAt(Kids(s)[q[0]], q[1..])
  }

  /** Encoding and decoding: `omitempty` drops an empty children map, which comes back nil. */
  function Transmit(s: EntrySnapshot): EntrySnapshot
    decreases s
  {
    match s.children
    case Nil => s
    case Children(m) =>
      EntrySnapshot(s.name, s.attrs, if m == map[] then Nil else Children(map k | k in m :: Transmit(m[k])))
  }

  function TransmitMeta(snap: MetaSnapshot): MetaSnapshot {
    snap.(root := if snap.root.Some? then Some(Transmit(snap.root.value)) else None)
  }

  /** s shows at q what t has at p + q. */
  ghost predicate Shows(s: EntrySnapshot, t: Tree, p: Path, q: Path) {
    var n := NodeAt(s, q);
    && (n.Some? <==> p + q in t)
    && (n.Some? ==> n.value.attrs == t[p + q])
    && (n.Some? && q != [] ==> n.value.name == Last(q))
  }

  /** s is a picture of the part of t at and below p. */
  ghost predicate Pictures(s: EntrySnapshot, t: Tree, p: Path) {
    forall q {:trigger Shows(s, t, p, q)} :: Shows(s, t, p, q)
  }

  /** The root to restore; a snapshot without one stands for an empty tree. */
  function RootOf(snap: MetaSnapshot): EntrySnapshot {
    snap.root.GetOr(EntrySnapshot("/", DirAttrs("", 0), Nil))
  }

  ghost predicate SnapshotOf(snap: MetaSnapshot, m: Meta) {
    && RootOf(snap).name == "/" && Pictures(RootOf(snap), m.tree, [])
    && snap.dataNodes == m.nodes
    && m.beats == snap.lastHeartbeat.GetOr(map[])
  }

  // ----- a snapshot determines the state, before and after the encoding -----

  lemma {:induction false} TransmitAt(s: EntrySnapshot, q: Path)
    ensures NodeAt(Transmit(s), q).Some? <==> NodeAt(s, q).Some?
    ensures NodeAt(s, q).Some? ==>
              && NodeAt(Transmit(s), q).value.attrs == NodeAt(s, q).value.attrs
              && NodeAt(Transmit(s), q).value.name == NodeAt(s, q).value.name
    decreases |q|
  {
    if q != [] && q[0] in Kids(s) {
      TransmitAt(Kids(s)[q[0]], q[1..]);
    }
  }

  /** The encoding does drop every empty children map, and keeps the names in the others. */
  lemma {:induction false} TransmitDropsEmpty(s: EntrySnapshot, q: Path)
    requires NodeAt(s, q).Some?
    ensures var n, n' := NodeAt(s, q).value, NodeAt(Transmit(s), q);
            && n'.Some? && Kids(n'.value).Keys == Kids(n).Keys
            && (Kids(n) == map[] <==> n'.value.children == Nil)
    decreases |q|
  {
    if q != [] {
      TransmitDropsEmpty(Kids(s)[q[0]], q[1..]);
    }
  }

  lemma TransmitPictures(s: EntrySnapshot, t: Tree, p: Path)
    requires Pictures(s, t, p)
    ensures Pictures(Transmit(s), t, p)
  {
    forall q
      ensures Shows(Transmit(s), t, p, q)
    {
      assert Shows(s, t, p, q);
      TransmitAt(s, q);
    }
  }

  /** Reading back an encoded snapshot gives one of the same state. */
  lemma TransmitKeepsState(snap: MetaSnapshot, m: Meta)
    requires SnapshotOf(snap, m)
    ensures SnapshotOf(TransmitMeta(snap), m)
  {
    TransmitPictures(RootOf(snap), m.tree, []);
    assert RootOf(TransmitMeta(snap)) == if snap.root.Some? then Transmit(RootOf(snap)) else RootOf(snap);
  }

  /** Only one state has a given snapshot. */
  lemma SnapshotDetermines(snap: MetaSnapshot, m: Meta, m': Meta)
    requires SnapshotOf(snap, m) && SnapshotOf(snap, m')
    ensures m == m'
  {
    var s := RootOf(snap);
    forall q
      ensures q in m.tree <==> q in m'.tree
      ensures q in m.tree ==> m.tree[q] == m'.tree[q]
    {
      assert Shows(s, m.tree, [], q) && Shows(s, m'.tree, [], q);
      assert [] + q == q;
    }
    SameMap(m.tree, m'.tree);
  }

  // ----- snapshots a tree can be built from -----

  ghost predicate NodeFits(s: EntrySnapshot, q: Path) {
    var n := NodeAt(s, q);
    n.Some? ==>
      && IsPath(q)
      && (q != [] ==> n.value.name == Last(q))
      && (!n.value.attrs.isDir ==> Kids(n.value) == map[])
  }

  /** Names match keys and files have no children, all the way down. */
  ghost predicate Fits(s: EntrySnapshot) {
    forall q {:trigger NodeFits(s, q)} :: NodeFits(s, q)
  }

  lemma {:induction false} NodeAtStep(s: EntrySnapshot, q: Path, k: string)
    requires NodeAt(s, q).Some?
    ensures NodeAt(s, Child(q, k)) == if k in Kids(NodeAt(s, q).value) then Some(Kids(NodeAt(s, q).value)[k]) else None
    decreases |q|
  {
    if q == [] {
      assert Child(q, k)[1..] == [];
    } else {
      assert Child(q, k)[0] == q[0] && Child(q, k)[1..] == Child(q[1..], k);
      NodeAtStep(Kids(s)[q[0]], q[1..], k);
    }
  }

  /** A picture of a well-formed tree can be built into entries. */
  lemma PictureFits(s: EntrySnapshot, t: Tree)
    requires WellFormed(t) && Pictures(s, t, [])
    ensures Fits(s)
  {
    forall q
      ensures NodeFits(s, q)
    {
      assert Shows(s, t, [], q) && [] + q == q;
      if q in t {
        assert Hangs(t, q);
        var n := NodeAt(s, q).value;
        if k :| k in Kids(n) {
          NodeAtStep(s, q, k);
          assert Shows(s, t, [], Child(q, k)) && [] + Child(q, k) == Child(q, k);
          assert Hangs(t, Child(q, k));
          assert Parent(Child(q, k)) == q;
        }
      }
    }
  }

  lemma KidFits(s: EntrySnapshot, k: string)
    requires Fits(s) && k in Kids(s)
    ensures IsName(k) && Kids(s)[k].name == k && Fits(Kids(s)[k])
  {
    var c := Kids(s)[k];
    assert NodeFits(s, [k]) && NodeAt(c, [k][1..]) == Some(c);
    assert IsPath([k]) && IsName([k][0]);
    forall q
      ensures NodeFits(c, q)
    {
      var kq := [k] + q;
      assert kq[0] == k && kq[1..] == q;
      assert NodeFits(s, kq);
      if NodeAt(c, q).Some? {
        assert forall i | 0 <= i < |q| :: q[i] == kq[i + 1];
      }
    }
  }

  /** The picture of a directory from the pictures of its children. */
  lemma PictureFromKids(s: EntrySnapshot, t: Tree, p: Path)
    requires p in t && s.attrs == t[p]
    requires forall k :: k in Kids(s) <==> Child(p, k) in t
    requires forall k | k in Kids(s) :: Kids(s)[k].name == k && Pictures(Kids(s)[k], t, Child(p, k))
    requires forall q | q != [] && p + q in t :: Child(p, q[0]) in t
    ensures Pictures(s, t, p)
  {
    assert p + [] == p;
    forall q
      ensures Shows(s, t, p, q)
    {
      if q != [] {
        var k := q[0];
        assert Child(p, k) + q[1..] == p + q;
        if k in Kids(s) {
          assert Shows(Kids(s)[k], t, Child(p, k), q[1..]);
          assert q[1..] != [] ==> Last(q[1..]) == Last(q);
        }
      }
    }
  }

  /** t holds at q the attributes s has there. */
  ghost predicate DrawsAt(s: EntrySnapshot, t: Tree, q: Path) {
    var n := NodeAt(s, q);
    (q in t <==> n.Some?) && (n.Some? ==> t[q] == n.value.attrs)
  }

  ghost predicate Draws(s: EntrySnapshot, t: Tree) {
    forall q {:trigger DrawsAt(s, t, q)} :: DrawsAt(s, t, q)
  }

  ghost predicate DrawsPartAt(s: EntrySnapshot, t: Tree, done: set<string>, q: Path) {
    if q == [] || q[0] in done then DrawsAt(s, t, q) else q !in t
  }

  /** As Draws, for the root and the children named in done only. */
  ghost predicate DrawsPart(s: EntrySnapshot, t: Tree, done: set<string>) {
    forall q {:trigger DrawsPartAt(s, t, done, q)} :: DrawsPartAt(s, t, done, q)
  }

  lemma DrawNextKid(s: EntrySnapshot, t: Tree, done: set<string>, k: string, sub: Tree)
    requires DrawsPart(s, t, done) && k in Kids(s) && k !in done && Draws(Kids(s)[k], sub)
    ensures DrawsPart(s, Hang(t, k, sub), done + {k})
    ensures forall q | q in t && q != [] :: q[0] != k
  {
    forall q
      ensures DrawsPartAt(s, Hang(t, k, sub), done + {k}, q)
    {
      assert DrawsPartAt(s, t, done, q);
      if q != [] && q[0] == k {
        assert DrawsAt(Kids(s)[k], sub, q[1..]);
      }
    }
    forall q | q in t && q != []
      ensures q[0] != k
    {
      assert DrawsPartAt(s, t, done, q);
    }
  }

  lemma DrawsAll(s: EntrySnapshot, t: Tree, done: set<string>)
    requires DrawsPart(s, t, done) && done == Kids(s).Keys
    ensures Draws(s, t)
  {
    forall q
      ensures DrawsAt(s, t, q)
    {
      assert DrawsPartAt(s, t, done, q);
    }
  }

  lemma DrawnIsPicture(s: EntrySnapshot, t: Tree)
    requires Draws(s, t) && Fits(s)
    ensures Pictures(s, t, [])
  {
    forall q
      ensures Shows(s, t, [], q)
    {
      assert DrawsAt(s, t, q) && NodeFits(s, q) && [] + q == q;
    }
  }

  /** What Restore needs of the root: a directory named "/" whose nodes fit their keys. */
  ghost predicate Rootlike(s: EntrySnapshot) {
    s.name == "/" && s.attrs.isDir && Fits(s)
  }

  lemma NoRootIsEmptyTree(snap: MetaSnapshot)
    requires snap.root.None?
    ensures Rootlike(RootOf(snap)) && Pictures(RootOf(snap), InitialTree(0), [])
  {
    forall q
      ensures Shows(RootOf(snap), InitialTree(0), [], q)
    {
      assert [] + q == q;
    }
  }

  /** A snapshot that was taken, encoded and read back can be restored, and to no state but the one it was taken of. */
  lemma RestoreRoundTrip(snap: MetaSnapshot, m: Meta, m': Meta)
    requires WellFormed(m.tree) && SnapshotOf(snap, m)
    ensures Rootlike(RootOf(TransmitMeta(snap)))
    ensures SnapshotOf(TransmitMeta(snap), m') <==> m' == m
  {
    TransmitKeepsState(snap, m);
    var s := RootOf(TransmitMeta(snap));
    PictureFits(s, m.tree);
    assert Shows(s, m.tree, [], []) && NodeAt(s, []) == Some(s);
    var top: Path := [];
    assert top + top == top && s.attrs == m.tree[top];
    if SnapshotOf(TransmitMeta(snap), m') {
      SnapshotDetermines(TransmitMeta(snap), m, m');
    }
  }
}
