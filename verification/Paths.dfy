/** Path strings and their components (splitPath, joinPath). */
module Paths {

  /** A path inside the tree: the list of components below the root. */
  type Path = seq<string>

  predicate IsName(s: string) {
    s != "" && '/' !in s
  }

  predicate IsPath(p: Path) {
    forall i | 0 <= i < |p| :: IsName(p[i])
  }

  function Parent(p: Path): Path
    requires p != []
  {
    p[..|p| - 1]
  }

  function Last(p: Path): string
    requires p != []
  {
    p[|p| - 1]
  }

  function Child(p: Path, k: string): Path {
    p + [k]
  }

  /** strings.Split(s, "/"): never empty, and "" gives one empty segment. */
  function Split(s: string): (r: seq<string>)
    ensures |r| >= 1
  {
    if s == "" then [""]
    else
      var rest := Split(s[1..]);
      if s[0] == '/' then [""] + rest else [[s[0]] + rest[0]] + rest[1..]
  }

  function NonEmpty(parts: seq<string>): seq<string> {
    if parts == [] then []
    else if parts[0] == "" then NonEmpty(parts[1..])
    else [parts[0]] + NonEmpty(parts[1..])
  }

  /** What a path string denotes; the laws below determine it completely. */
  function Components(s: string): Path {
    NonEmpty(Split(s))
  }

  function TrimPrefix(s: string, prefix: string): string {
    if prefix <= s then s[|prefix|..] else s
  }

  function TrimSlashSuffix(s: string): string {
    if s != "" && s[|s| - 1] == '/' then s[..|s| - 1] else s
  }

  method SplitPath(path: string) returns (parts: Path)
    ensures parts == Components(path)
    ensures IsPath(parts)
  {
    var s := TrimPrefix(path, "/");
    s := TrimSlashSuffix(s);
    TrimKeepsComponents(path);
    ComponentsAreNames(s);
    if s == "" {
      assert Split("") == [""];
      return [];
    }
    parts := [];
    var segments := Split(s);
    for i := 0 to |segments|
      invariant parts + NonEmpty(segments[i..]) == Components(s)
    {
      if segments[i] != "" {
        parts := parts + [segments[i]];
      }
      assert segments[i..][1..] == segments[i + 1..];
    }
  }

  function JoinPath(parent: string, name: string): string {
    if parent == "/" then "/" + name else parent + "/" + name
  }

  /** The string the repair scan builds for a path, one JoinPath per level. */
  function PathString(p: Path): string {
    if p == [] then "/" else JoinPath(PathString(Parent(p)), Last(p))
  }

  /** The rebuilt string has one slash before each name and no other. */
  lemma {:induction false} PathStringIs(p: Path)
    ensures PathString([]) == "/" && (p != [] && IsPath(p) ==> PathString(p) == Slashed(p))
  {
    if p != [] && IsPath(p) {
      assert p == Parent(p) + [Last(p)];
      PathStringIs(Parent(p));
      SlashedLast(Parent(p), Last(p));
      if Parent(p) != [] {
        SlashedLonger(Parent(p));
      }
    }
  }

  function Slashed(p: Path): string {
    if p == [] then "" else "/" + p[0] + Slashed(p[1..])
  }

  lemma {:induction false} SlashedLast(p: Path, name: string)
    ensures Slashed(p + [name]) == Slashed(p) + "/" + name
  {
    if p != [] {
      assert (p + [name])[1..] == p[1..] + [name];
      SlashedLast(p[1..], name);
    } else {
      assert p + [name] == [name] && [name][1..] == [];
    }
  }

  lemma SlashedLonger(p: Path)
    requires p != [] && IsPath(p)
    ensures Slashed(p) != "/"
  {
    assert IsName(p[0]);
  }

  lemma NonEmptyConcat(a: seq<string>, b: seq<string>)
    ensures NonEmpty(a + b) == NonEmpty(a) + NonEmpty(b)
  {
    if a == [] {
      assert a + b == b;
    } else {
      assert (a + b)[1..] == a[1..] + b;
      NonEmptyConcat(a[1..], b);
    }
  }

  lemma ConcatTail(a: string, b: string)
    requires a != ""
    ensures (a + b)[0] == a[0] && (a + b)[1..] == a[1..] + b
  {
  }

  lemma ConcatHead(x: string, xs: seq<string>, ys: seq<string>)
    requires xs != []
    ensures [x + (xs + ys)[0]] + (xs + ys)[1..] == ([x + xs[0]] + xs[1..]) + ys
    ensures [""] + (xs + ys) == ([""] + xs) + ys
  {
  }

  lemma {:induction false} SplitAtSlash(a: string, tail: string)
    requires tail != "" && tail[0] == '/'
    ensures Split(a + tail) == Split(a) + Split(tail[1..])
  {
    if a == "" {
      assert a + tail == tail;
    } else {
      SplitAtSlash(a[1..], tail);
      ConcatTail(a, tail);
      ConcatHead([a[0]], Split(a[1..]), Split(tail[1..]));
    }
  }

  lemma SplitConcat(a: string, b: string)
    ensures Split(a + "/" + b) == Split(a) + Split(b)
  {
    var tail := "/" + b;
    assert a + "/" + b == a + tail && tail[1..] == b;
    SplitAtSlash(a, tail);
  }

  /** A slash separates: this law makes leading, trailing and repeated slashes vanish. */
  lemma ComponentsConcat(a: string, b: string)
    ensures Components(a + "/" + b) == Components(a) + Components(b)
  {
    SplitConcat(a, b);
    NonEmptyConcat(Split(a), Split(b));
  }

  lemma SplitName(s: string)
    requires '/' !in s
    ensures Split(s) == [s]
  {
    if s != "" {
      SplitName(s[1..]);
      assert [s[0]] + s[1..] == s;
    }
  }

  lemma ComponentsName(s: string)
    requires '/' !in s
    ensures Components(s) == if s == "" then [] else [s]
  {
    SplitName(s);
    assert NonEmpty([s]) == if s == "" then NonEmpty([s][1..]) else [s] + NonEmpty([s][1..]);
  }

  lemma {:induction false} SegmentsSlashFree(s: string)
    ensures forall i | 0 <= i < |Split(s)| :: '/' !in Split(s)[i]
  {
    if s != "" {
      SegmentsSlashFree(s[1..]);
    }
  }

  lemma {:induction false} NonEmptyNames(parts: seq<string>)
    requires forall i | 0 <= i < |parts| :: '/' !in parts[i]
    ensures IsPath(NonEmpty(parts))
  {
    if parts != [] {
      NonEmptyNames(parts[1..]);
    }
  }

  lemma ComponentsAreNames(s: string)
    ensures IsPath(Components(s))
  {
    SegmentsSlashFree(s);
    NonEmptyNames(Split(s));
  }

  lemma TrimKeepsComponents(path: string)
    ensures Components(TrimSlashSuffix(TrimPrefix(path, "/"))) == Components(path)
  {
    ComponentsName("");
    var s := TrimPrefix(path, "/");
    if "/" <= path {
      assert path == "" + "/" + s;
      ComponentsConcat("", s);
    }
    if s != "" && s[|s| - 1] == '/' {
      assert s == s[..|s| - 1] + "/" + "";
      ComponentsConcat(s[..|s| - 1], "");
    }
  }

  lemma ComponentsRoot()
    ensures Components("") == [] && Components("/") == []
  {
    ComponentsName("");
    assert "/" == "" + "/" + "";
    ComponentsConcat("", "");
  }

  lemma ComponentsJoinPath(parent: string, name: string)
    requires IsName(name)
    ensures Components(JoinPath(parent, name)) == Child(Components(parent), name)
  {
    ComponentsName(name);
    if parent == "/" {
      ComponentsRoot();
      assert JoinPath(parent, name) == "" + "/" + name;
      ComponentsConcat("", name);
    } else {
      ComponentsConcat(parent, name);
    }
  }

  /** splitPath undoes repeated joinPath. */
  lemma {:induction false} ComponentsPathString(p: Path)
    requires IsPath(p)
    ensures Components(PathString(p)) == p
  {
    if p == [] {
      ComponentsRoot();
    } else {
      ComponentsPathString(Parent(p));
      ComponentsChild(p, PathString(Parent(p)), PathString(p));
    }
  }

  lemma ComponentsChild(p: Path, parent: string, joined: string)
    requires p != [] && IsName(Last(p)) && Components(parent) == Parent(p)
    requires joined == JoinPath(parent, Last(p))
    ensures Components(joined) == p
  {
    ComponentsJoinPath(parent, Last(p));
    assert p == Child(Parent(p), Last(p));
  }

  /** The laws leave no choice: any splitter that obeys them is Components. */
  lemma {:induction false} ComponentsUnique(f: string -> Path, s: string)
    requires forall a, b :: f(a + "/" + b) == f(a) + f(b)
    requires forall a | '/' !in a :: f(a) == if a == "" then [] else [a]
    ensures f(s) == Components(s)
    decreases |s|
  {
    if '/' !in s {
      ComponentsName(s);
    } else {
      var i :| 0 <= i < |s| && s[i] == '/';
      assert s == s[..i] + "/" + s[i + 1..];
      ComponentsUnique(f, s[..i]);
      ComponentsUnique(f, s[i + 1..]);
      ComponentsConcat(s[..i], s[i + 1..]);
    }
  }
}
