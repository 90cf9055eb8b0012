/**
 Flat maps keyed by path, the subtree operations on them, and the shape of a pointer tree.

 A map from paths to nodes describes a tree when every node's children map is exactly
 what the map's keys say it is and no node sits at two paths.
 */
module Subtrees {
  import opened Paths

  /** Everything except p and what lies below it. */
  function Prune<V>(m: map<Path, V>, p: Path): map<Path, V> {
    map q | q in m && !(p <= q) :: m[q]
  }

  lemma SameMap<K, V>(a: map<K, V>, b: map<K, V>)
    requires forall k :: k in a <==> k in b
    requires forall k | k in a && k in b :: a[k] == b[k]
    ensures a == b
  {
  }

  /** Where the thing at r was before a move from src to dst. */
  function Origin(src: Path, dst: Path, r: Path): Path {
    if dst <= r then src + r[|dst|..] else r
  }

  /** The keys after a move: those outside src and dst, and those under src carried over to dst. */
  function MoveKeys<V>(m: map<Path, V>, src: Path, dst: Path): (keys: set<Path>)
    ensures forall r {:trigger r in keys} ::
              r in keys <==> Origin(src, dst, r) in m && (dst <= r || !(src <= r))
  {
    var stay := set r | r in m && !(src <= r) && !(dst <= r);
    var carried := set r | r in m && src <= r :: dst + r[|src|..];
    assert forall r {:trigger r in carried} :: r in carried <==> dst <= r && Origin(src, dst, r) in m by {
      forall r
        ensures r in carried <==> dst <= r && Origin(src, dst, r) in m
      {
        if r in carried {
          var o :| o in m && src <= o && r == dst + o[|src|..];
          assert r[|dst|..] == o[|src|..] && o == src + o[|src|..];
        }
        if dst <= r && Origin(src, dst, r) in m {
          assert Origin(src, dst, r)[|src|..] == r[|dst|..];
          assert r == dst + r[|dst|..];
        }
      }
    }
    stay + carried
  }

  /** The subtree at src taken out and put in place of whatever is at dst. */
  function Move<V>(m: map<Path, V>, src: Path, dst: Path): map<Path, V> {
    map r | r in MoveKeys(m, src, dst) :: m[Origin(src, dst, r)]
  }

  // ----- pointer trees -----

  datatype Node<E> = Node(self: E, name: string, isDir: bool, children: map<string, E>)

  /** The node at p hangs where its path says, under its own name. */
  ghost predicate Placed<E>(s: map<Path, Node<E>>, p: Path)
    requires p in s
  {
    && IsPath(p)
    && (p != [] ==> Parent(p) in s && s[p].name == Last(p))
    && (!s[p].isDir ==> s[p].children == map[])
  }

  /** The child pointer k of the node at p agrees with the keys of the map. */
  ghost predicate Linked<E>(s: map<Path, Node<E>>, p: Path, k: string)
    requires p in s
  {
    if Child(p, k) in s then k in s[p].children && s[p].children[k] == s[Child(p, k)].self
    else k !in s[p].children
  }

  ghost predicate Apart<E>(s: map<Path, Node<E>>, p: Path, q: Path) {
    p in s && q in s && s[p].self == s[q].self ==> p == q
  }

  /** No node is reachable along two paths. */
  ghost predicate OneParent<E>(s: map<Path, Node<E>>) {
    forall p, q {:trigger Apart(s, p, q)} :: Apart(s, p, q)
  }

  ghost predicate IsTree<E>(s: map<Path, Node<E>>, rootName: string) {
    && [] in s && s[[]].name == rootName
    && (forall p {:trigger Placed(s, p)} | p in s :: Placed(s, p))
    && (forall p, k {:trigger Linked(s, p, k)} | p in s :: Linked(s, p, k))
    && OneParent(s)
  }

  /** Every prefix of a key is a key, and every proper prefix is a directory. */
  lemma {:induction false} PrefixInTree<E>(s: map<Path, Node<E>>, rootName: string, p: Path, q: Path)
    requires IsTree(s, rootName) && q in s && p <= q
    ensures p in s && (p != q ==> s[p].isDir)
    decreases |q|
  {
    if p != q {
      var up := Parent(q);
      assert Placed(s, q) && q == Child(up, Last(q));
      ParentBelow(p, q);
      PrefixInTree(s, rootName, p, up);
      assert Linked(s, up, Last(q));
      assert Placed(s, up);
    }
  }

  /** Two paths above a third are one above the other. */
  lemma Comparable(p: Path, q: Path, r: Path)
    requires p <= r && q <= r
    ensures p <= q || q <= p
  {
    assert p == r[..|p|] && q == r[..|q|];
  }

  lemma ParentBelow(p: Path, q: Path)
    requires p <= q && p != q
    ensures p <= Parent(q)
  {
    assert q == Child(Parent(q), Last(q));
    ChildBelow(p, Parent(q), Last(q));
  }

  lemma BelowFile<E>(s: map<Path, Node<E>>, rootName: string, p: Path, q: Path)
    requires IsTree(s, rootName) && p in s && !s[p].isDir && q in s && p <= q
    ensures q == p
  {
    PrefixInTree(s, rootName, p, q);
  }

  lemma BelowAbsent<E>(s: map<Path, Node<E>>, rootName: string, p: Path, q: Path)
    requires IsTree(s, rootName) && p !in s && p <= q
    ensures q !in s
  {
    if q in s {
      PrefixInTree(s, rootName, p, q);
    }
  }

  function WithoutChild<E>(n: Node<E>, k: string): Node<E> {
    n.(children := n.children - {k})
  }

  function WithChild<E>(n: Node<E>, k: string, c: E): Node<E> {
    n.(children := n.children[k := c])
  }

  /** t is s without the subtree at p, the parent's pointer to it removed. */
  ghost predicate Detached<E>(s: map<Path, Node<E>>, p: Path, t: map<Path, Node<E>>)
    requires p != []
  {
    && (forall q :: q in t <==> q in s && !(p <= q))
    && (forall q | q in t :: t[q] == if q == Parent(p) then WithoutChild(s[q], Last(p)) else s[q])
  }

  /** A child path is below p only when it is p itself or its parent is below p. */
  lemma ChildBelow(p: Path, q: Path, k: string)
    ensures p <= Child(q, k) <==> p == Child(q, k) || p <= q
  {
    if p <= Child(q, k) && p != Child(q, k) {
      assert p == Child(q, k)[..|p|] == q[..|p|];
    }
    assert q <= Child(q, k);
  }

  lemma DetachIsTree<E>(s: map<Path, Node<E>>, rootName: string, p: Path, t: map<Path, Node<E>>)
    requires IsTree(s, rootName) && p != [] && Parent(p) in s && Detached(s, p, t)
    ensures IsTree(t, rootName)
  {
    assert p == Child(Parent(p), Last(p));
    forall q | q in t
      ensures Placed(t, q)
    {
      assert Placed(s, q);
      assert q != [] ==> Parent(q) <= q;
    }
    forall q, k | q in t
      ensures Linked(t, q, k)
    {
      assert Linked(s, q, k);
      ChildBelow(p, q, k);
    }
    forall q, r
      ensures Apart(t, q, r)
    {
      assert Apart(s, q, r);
    }
  }

  // ----- a new childless node -----

  lemma LeafIsTree<E>(n: Node<E>)
    requires n.children == map[]
    ensures IsTree(map[[] := n], n.name)
  {
    var s := map[[] := n];
    forall k
      ensures Linked(s, [], k)
    {
      assert Child([], k) != [];
    }
    forall p, q
      ensures Apart(s, p, q)
    {
    }
  }

  /** t is s with a childless node put at p, in place of any file there. */
  ghost predicate Grown<E>(s: map<Path, Node<E>>, p: Path, leaf: Node<E>, t: map<Path, Node<E>>)
    requires p != [] && Parent(p) in s
  {
    && t.Keys == s.Keys + {p}
    && (forall q | q in t :: t[q] ==
          if q == p then leaf else if q == Parent(p) then WithChild(s[q], Last(p), leaf.self) else s[q])
  }

  lemma GrownLinked<E>(s: map<Path, Node<E>>, rootName: string, p: Path, leaf: Node<E>, t: map<Path, Node<E>>,
                       q: Path, k: string)
    requires IsTree(s, rootName) && p != [] && Parent(p) in s
    requires (p in s ==> !s[p].isDir) && leaf.children == map[]
    requires Grown(s, p, leaf, t) && q in t
    ensures Linked(t, q, k)
  {
    var c := Child(q, k);
    assert c != q && c != [];
    assert p == Child(Parent(p), Last(p)) && Parent(c) == q && Last(c) == k;
    if q == p {
      assert c !in s by {
        if c in s {
          assert p <= c;
          PrefixInTree(s, rootName, p, c);
        }
      }
    } else {
      assert Linked(s, q, k);
    }
  }

  lemma GrownPlaced<E>(s: map<Path, Node<E>>, rootName: string, p: Path, leaf: Node<E>, t: map<Path, Node<E>>, q: Path)
    requires IsTree(s, rootName) && p != [] && IsPath(p) && Parent(p) in s && s[Parent(p)].isDir
    requires leaf.name == Last(p) && leaf.children == map[]
    requires Grown(s, p, leaf, t) && q in t
    ensures Placed(t, q)
  {
    assert q != p ==> Placed(s, q);
  }

  lemma GrownApart<E>(s: map<Path, Node<E>>, p: Path, leaf: Node<E>, t: map<Path, Node<E>>)
    requires OneParent(s) && p != [] && Parent(p) in s
    requires forall q | q in s :: s[q].self != leaf.self
    requires Grown(s, p, leaf, t)
    ensures OneParent(t)
  {
    forall q, r
      ensures Apart(t, q, r)
    {
      assert Apart(s, q, r);
    }
  }

  lemma GrownIsTree<E>(s: map<Path, Node<E>>, rootName: string, p: Path, leaf: Node<E>, t: map<Path, Node<E>>)
    requires IsTree(s, rootName) && p != [] && IsPath(p) && Parent(p) in s && s[Parent(p)].isDir
    requires p in s ==> !s[p].isDir
    requires leaf.name == Last(p) && leaf.children == map[]
    requires forall q | q in s :: s[q].self != leaf.self
    requires Grown(s, p, leaf, t)
    ensures IsTree(t, rootName)
  {
    forall q | q in t
      ensures Placed(t, q)
    {
      GrownPlaced(s, rootName, p, leaf, t, q);
    }
    forall q, k | q in t
      ensures Linked(t, q, k)
    {
      GrownLinked(s, rootName, p, leaf, t, q, k);
    }
    GrownApart(s, p, leaf, t);
  }

  lemma PutIsTree<E>(s: map<Path, Node<E>>, rootName: string, p: Path, leaf: Node<E>)
    requires IsTree(s, rootName) && p != [] && IsPath(p) && Parent(p) in s && s[Parent(p)].isDir
    requires p in s ==> !s[p].isDir
    requires leaf.name == Last(p) && leaf.children == map[]
    requires forall q | q in s :: s[q].self != leaf.self
    ensures var t := s[Parent(p) := WithChild(s[Parent(p)], Last(p), leaf.self)][p := leaf];
            IsTree(t, rootName) && t[[]].self == s[[]].self && t[[]].isDir == s[[]].isDir
  {
    GrownIsTree(s, rootName, p, leaf, s[Parent(p) := WithChild(s[Parent(p)], Last(p), leaf.self)][p := leaf]);
  }

  // ----- moving a subtree -----

  /** What rename checks before it touches a link. */
  ghost predicate Movable<E>(s: map<Path, Node<E>>, src: Path, dst: Path) {
    && src != [] && src in s
    && dst != [] && IsPath(dst) && Parent(dst) in s && s[Parent(dst)].isDir
    && !(src <= Parent(dst))
    && (dst in s ==> !s[dst].isDir)
  }

  ghost predicate ParentsStay(src: Path, dst: Path) {
    && src != [] && dst != []
    && !(src <= Parent(src)) && !(dst <= Parent(src)) && !(dst <= Parent(dst)) && !(src <= Parent(dst))
  }

  /** Parents lie outside what a move takes away or replaces. */
  lemma MovableParents<E>(s: map<Path, Node<E>>, rootName: string, src: Path, dst: Path)
    requires IsTree(s, rootName) && Movable(s, src, dst)
    ensures Parent(src) in s && s[Parent(src)].isDir && ParentsStay(src, dst)
    ensures dst <= src ==> dst == src
    ensures src <= dst ==> dst == src
  {
    assert Parent(src) <= src;
    PrefixInTree(s, rootName, Parent(src), src);
    if dst <= src {
      PrefixInTree(s, rootName, dst, src);
    }
    if src <= dst && src != dst {
      ParentBelow(src, dst);
    }
  }

  /** A node outside dst after the move: only the two parents' links change. */
  ghost function Adjusted<E>(s: map<Path, Node<E>>, src: Path, dst: Path, r: Path): Node<E>
    requires src != [] && dst != [] && src in s && r in s
  {
    var n := if r == Parent(src) then WithoutChild(s[r], Last(src)) else s[r];
    if r == Parent(dst) then WithChild(n, Last(dst), s[src].self) else n
  }

  /** Dropping k just before setting k changes nothing, whatever is dropped in between. */
  lemma SetAfterDrop<E>(n: Node<E>, k: string, j: string, c: E)
    ensures WithChild(WithoutChild(n, k), k, c) == WithChild(n, k, c)
    ensures WithChild(WithoutChild(WithoutChild(n, k), j), k, c) == WithChild(WithoutChild(n, j), k, c)
  {
    assert (n.children - {k})[k := c] == n.children[k := c];
    assert (n.children - {k} - {j})[k := c] == (n.children - {j})[k := c];
  }

  /** What is at r in t, when t is s with the subtree at src moved to dst. */
  ghost predicate MovedTo<E>(s: map<Path, Node<E>>, src: Path, dst: Path, t: map<Path, Node<E>>, r: Path)
    requires src != [] && dst != [] && src in s
  {
    if dst <= r then
      var origin := src + r[|dst|..];
      && (r in t <==> origin in s)
      && (r in t ==> t[r] == if r == dst then s[src].(name := Last(dst)) else s[origin])
    else
      && (r in t <==> r in s && !(src <= r))
      && (r in t ==> t[r] == Adjusted(s, src, dst, r))
  }

  /** n lists the nodes under their old paths after rename has changed their fields. */
  ghost predicate Reparented<E>(s: map<Path, Node<E>>, src: Path, dst: Path, n: map<Path, Node<E>>)
    requires src != [] && dst != [] && src in s && Parent(src) in s && Parent(dst) in s
  {
    && n.Keys == s.Keys
    && n[src] == s[src].(name := Last(dst))
    && (forall p | p in s && p != src :: n[p] == Adjusted(s, src, dst, p))
  }

  lemma MovedAll<E>(s: map<Path, Node<E>>, src: Path, dst: Path, n: map<Path, Node<E>>)
    requires ParentsStay(src, dst) && src in s && Parent(src) in s && Parent(dst) in s
    requires Reparented(s, src, dst, n)
    ensures forall r {:trigger MovedTo(s, src, dst, Move(n, src, dst), r)} :: MovedTo(s, src, dst, Move(n, src, dst), r)
  {
    forall r
      ensures MovedTo(s, src, dst, Move(n, src, dst), r)
    {
      MovedNode(s, src, dst, n, r);
    }
  }

  lemma MovedNode<E>(s: map<Path, Node<E>>, src: Path, dst: Path, n: map<Path, Node<E>>, r: Path)
    requires ParentsStay(src, dst) && src in s && Parent(src) in s && Parent(dst) in s
    requires Reparented(s, src, dst, n)
    ensures MovedTo(s, src, dst, Move(n, src, dst), r)
  {
    if dst <= r {
      var q := r[|dst|..];
      assert src <= src + q;
      assert q == [] <==> r == dst;
      assert q == [] <==> src + q == src;
    }
  }

  lemma MovedPlaced<E>(s: map<Path, Node<E>>, rootName: string, src: Path, dst: Path, t: map<Path, Node<E>>, r: Path)
    requires IsTree(s, rootName) && Movable(s, src, dst) && ParentsStay(src, dst)
    requires r in t && MovedTo(s, src, dst, t, r)
    requires r != [] ==> MovedTo(s, src, dst, t, Parent(r))
    ensures Placed(t, r)
  {
    if dst <= r {
      var q := r[|dst|..];
      assert r == dst + q;
      assert Placed(s, src + q);
      if q == [] {
        assert src + q == src;
      } else {
        assert Parent(r) == dst + Parent(q) && Parent(r)[|dst|..] == Parent(q);
        assert Parent(src + q) == src + Parent(q);
        assert Last(r) == Last(src + q);
        assert forall i | 0 <= i < |q| :: q[i] == (src + q)[|src| + i];
      }
    } else {
      assert Placed(s, r);
      if r != [] {
        assert Parent(r) <= r;
      }
    }
  }

  lemma MovedLinkedInside<E>(s: map<Path, Node<E>>, src: Path, dst: Path, t: map<Path, Node<E>>, r: Path, k: string)
    requires src != [] && dst != [] && src in s && dst <= r
    requires r in t && MovedTo(s, src, dst, t, r) && MovedTo(s, src, dst, t, Child(r, k))
    requires Linked(s, src + r[|dst|..], k)
    ensures Linked(t, r, k)
  {
    var q := r[|dst|..];
    assert r == dst + q;
    assert dst <= Child(r, k);
    assert Child(r, k)[|dst|..] == Child(q, k);
    assert src + Child(q, k) == Child(src + q, k);
    if q == [] {
      assert src + q == src;
    }
  }

  lemma MovedLinkedOutside<E>(s: map<Path, Node<E>>, src: Path, dst: Path, t: map<Path, Node<E>>, r: Path, k: string)
    requires ParentsStay(src, dst) && src in s && !(dst <= r)
    requires r in t && MovedTo(s, src, dst, t, r) && MovedTo(s, src, dst, t, Child(r, k))
    requires Linked(s, r, k)
    ensures Linked(t, r, k)
  {
    var c := Child(r, k);
    ChildBelow(dst, r, k);
    ChildBelow(src, r, k);
    assert Parent(c) == r && Last(c) == k;
    if c == dst {
      assert c[|dst|..] == [] && src + [] == src;
    } else {
      assert src == Child(Parent(src), Last(src)) && dst == Child(Parent(dst), Last(dst));
    }
  }

  lemma MovedApart<E>(s: map<Path, Node<E>>, src: Path, dst: Path, t: map<Path, Node<E>>, q: Path, r: Path)
    requires OneParent(s) && ParentsStay(src, dst) && src in s
    requires MovedTo(s, src, dst, t, q) && MovedTo(s, src, dst, t, r)
    ensures Apart(t, q, r)
  {
    var oq := if dst <= q then src + q[|dst|..] else q;
    var or := if dst <= r then src + r[|dst|..] else r;
    assert Apart(s, oq, or);
    assert src <= oq <==> dst <= q || src <= q;
    assert dst <= q ==> q == dst + oq[|src|..];
    assert dst <= r ==> r == dst + or[|src|..];
    assert q == dst ==> oq == src by {
      assert dst[|dst|..] == [];
    }
    assert r == dst ==> or == src by {
      assert dst[|dst|..] == [];
    }
  }

  /** A move that passed rename's checks leaves a tree. */
  lemma MovedIsTree<E>(s: map<Path, Node<E>>, rootName: string, src: Path, dst: Path, t: map<Path, Node<E>>)
    requires IsTree(s, rootName) && Movable(s, src, dst) && ParentsStay(src, dst)
    requires forall r {:trigger MovedTo(s, src, dst, t, r)} :: MovedTo(s, src, dst, t, r)
    ensures IsTree(t, rootName)
  {
    assert MovedTo(s, src, dst, t, []);
    forall r | r in t
      ensures Placed(t, r)
    {
      assert MovedTo(s, src, dst, t, r);
      assert r != [] ==> MovedTo(s, src, dst, t, Parent(r));
      MovedPlaced(s, rootName, src, dst, t, r);
    }
    forall r, k | r in t
      ensures Linked(t, r, k)
    {
      assert MovedTo(s, src, dst, t, r) && MovedTo(s, src, dst, t, Child(r, k));
      if dst <= r {
        assert Linked(s, src + r[|dst|..], k);
        MovedLinkedInside(s, src, dst, t, r, k);
      } else {
        assert Linked(s, r, k);
        MovedLinkedOutside(s, src, dst, t, r, k);
      }
    }
    forall q, r
      ensures Apart(t, q, r)
    {
      assert MovedTo(s, src, dst, t, q) && MovedTo(s, src, dst, t, r);
      MovedApart(s, src, dst, t, q, r);
    }
  }

  lemma RelinkIsTree<E>(s: map<Path, Node<E>>, rootName: string, src: Path, dst: Path, n: map<Path, Node<E>>)
    requires IsTree(s, rootName) && Movable(s, src, dst) && ParentsStay(src, dst) && Parent(src) in s
    requires Reparented(s, src, dst, n)
    ensures var t := Move(n, src, dst);
            IsTree(t, rootName) && t[[]].self == s[[]].self && t[[]].isDir == s[[]].isDir
  {
    MovedAll(s, src, dst, n);
    MovedIsTree(s, rootName, src, dst, Move(n, src, dst));
  }

  // ----- hanging a finished subtree below the root -----

  function LiftKeys<V>(sub: map<Path, V>, k: string): (keys: set<Path>)
    ensures forall r {:trigger r in keys} :: r in keys <==> r != [] && r[0] == k && r[1..] in sub
  {
    var keys := set q | q in sub :: [k] + q;
    assert forall r {:trigger r in keys} :: r in keys <==> r != [] && r[0] == k && r[1..] in sub by {
      forall r
        ensures r in keys <==> r != [] && r[0] == k && r[1..] in sub
      {
        if r in keys {
          var q :| q in sub && r == [k] + q;
          assert r[1..] == q;
        }
        if r != [] && r[0] == k && r[1..] in sub {
          assert r == [r[0]] + r[1..];
        }
      }
    }
    keys
  }

  /** m with sub placed below the root under the name k. */
  function Hang<V>(m: map<Path, V>, k: string, sub: map<Path, V>): map<Path, V> {
    m + map r | r in LiftKeys(sub, k) :: sub[r[1..]]
  }

  ghost predicate CanHang<E>(s: map<Path, Node<E>>, k: string, sub: map<Path, Node<E>>) {
    && [] in s && [] in sub
    && IsName(k) && s[[]].isDir
    && (forall q | q in s && q != [] :: q[0] != k)
    && (forall q, r | q in s && r in sub :: s[q].self != sub[r].self)
  }

  ghost function Hung<E>(s: map<Path, Node<E>>, k: string, sub: map<Path, Node<E>>): map<Path, Node<E>>
    requires [] in s && [] in sub
  {
    Hang(s[[] := WithChild(s[[]], k, sub[[]].self)], k, sub)
  }

  lemma HungPlaced<E>(s: map<Path, Node<E>>, k: string, sub: map<Path, Node<E>>, r: Path)
    requires CanHang(s, k, sub) && r in Hung(s, k, sub)
    requires if r != [] && r[0] == k then Placed(sub, r[1..]) && sub[[]].name == k else Placed(s, r)
    ensures Placed(Hung(s, k, sub), r)
  {
    if r != [] && r[0] == k {
      var q := r[1..];
      assert r == [k] + q;
      assert forall i | 0 < i < |r| :: r[i] == q[i - 1];
      if q != [] {
        assert Parent(r)[0] == k && Parent(r)[1..] == Parent(q);
        assert Last(r) == Last(q);
      }
    } else if |r| > 1 {
      assert Parent(r)[0] == r[0];
    }
  }

  lemma HungLinked<E>(s: map<Path, Node<E>>, k: string, sub: map<Path, Node<E>>, r: Path, j: string)
    requires CanHang(s, k, sub) && r in Hung(s, k, sub)
    requires if r != [] && r[0] == k then Linked(sub, r[1..], j) else Linked(s, r, j)
    ensures Linked(Hung(s, k, sub), r, j)
  {
    var c := Child(r, j);
    if r == [] {
      assert c[0] == j && c[1..] == [];
    } else {
      assert c[0] == r[0] && c[1..] == Child(r[1..], j);
    }
  }

  lemma HungApart<E>(s: map<Path, Node<E>>, k: string, sub: map<Path, Node<E>>, p: Path, q: Path)
    requires CanHang(s, k, sub) && OneParent(s) && OneParent(sub)
    ensures Apart(Hung(s, k, sub), p, q)
  {
    assert Apart(s, p, q);
    if p != [] && q != [] && p[0] == k && q[0] == k {
      assert p == [k] + p[1..] && q == [k] + q[1..];
      assert Apart(sub, p[1..], q[1..]);
    }
  }

  lemma HungIsTree<E>(s: map<Path, Node<E>>, rootName: string, k: string, sub: map<Path, Node<E>>)
    requires IsTree(s, rootName) && IsTree(sub, k) && CanHang(s, k, sub)
    ensures IsTree(Hung(s, k, sub), rootName)
  {
    var t := Hung(s, k, sub);
    forall r | r in t
      ensures Placed(t, r)
    {
      assert if r != [] && r[0] == k then Placed(sub, r[1..]) else Placed(s, r);
      HungPlaced(s, k, sub, r);
    }
    forall r, j | r in t
      ensures Linked(t, r, j)
    {
      assert if r != [] && r[0] == k then Linked(sub, r[1..], j) else Linked(s, r, j);
      HungLinked(s, k, sub, r, j);
    }
    forall p, q
      ensures Apart(t, p, q)
    {
      HungApart(s, k, sub, p, q);
    }
  }
}
