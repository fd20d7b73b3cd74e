/**
 * The parts of Python's `posixpath` (`os.path` on a POSIX system) that the
 * backup script relies on, over paths written as strings with `/` as the
 * only separator.
 */
module PosixPath {
  type Path = string

  /** `s.rfind(c)`: the index of the last `c` in `s`, or -1 when there is none. */
  function RFind(s: string, c: char): (r: int)
    ensures -1 <= r < |s|
    ensures r >= 0 ==> s[r] == c
    ensures forall j :: r < j < |s| ==> s[j] != c
  {
    if s == [] then -1
    else if s[|s| - 1] == c then |s| - 1
    else RFind(s[..|s| - 1], c)
  }

  /** `os.path.basename(p)`: everything after the last `/`. */
  function Basename(p: Path): (r: string)
    ensures forall j :: 0 <= j < |r| ==> r[j] != '/'
    ensures |r| <= |p| && p[|p| - |r|..] == r
    ensures |r| < |p| ==> p[|p| - |r| - 1] == '/'
  {
    p[RFind(p, '/') + 1..]
  }

  /**
   * `os.path.join(a, b)`: an absolute `b` replaces `a`; otherwise `b` is
   * appended, with a `/` between them unless `a` is empty or already ends
   * in one.
   */
  function Join(a: Path, b: Path): Path {
    if |b| > 0 && b[0] == '/' then b
    else if a == [] || a[|a| - 1] == '/' then a + b
    else a + "/" + b
  }

  /** True when some character of `p` in `[lo, hi)` is not a dot. */
  predicate HasNonDot(p: string, lo: int, hi: int)
    requires 0 <= lo && hi <= |p|
  {
    exists j :: lo <= j < hi && p[j] != '.'
  }

  /**
   * `os.path.splitext(p)`: the extension starts at the last dot of the last
   * path component, provided that component has a non-dot character before
   * that dot (so `.bashrc` and `..x` have no extension); otherwise it is
   * empty.
   */
  function SplitExt(p: Path): (parts: (Path, string))
    ensures parts.0 + parts.1 == p
    ensures parts.1 == [] || (parts.1[0] == '.' && '/' !in parts.1 && '.' !in parts.1[1..])
    ensures parts.1 != [] <==>
      exists j :: RFind(p, '/') < j < |p| && p[j] == '.' && HasNonDot(p, RFind(p, '/') + 1, j)
  {
    var sepIndex := RFind(p, '/');
    var dotIndex := RFind(p, '.');
    if dotIndex > sepIndex && HasNonDot(p, sepIndex + 1, dotIndex) then
      assert forall j :: 0 <= j < |p[dotIndex..]| ==> p[dotIndex..][j] == p[dotIndex + j];
      (p[..dotIndex], p[dotIndex..])
    else
      (p, [])
  }

  /**
   * The directories `os.makedirs(p)` makes sure exist: `p` itself and every
   * prefix of `p` that ends just before a `/`.
   */
  function Ancestors(p: Path): (r: set<Path>)
    ensures p != [] ==> p in r
    ensures forall a :: a in r ==> a != [] && a <= p
  {
    assert p[..|p|] == p;
    set i | 0 < i <= |p| && (i == |p| || p[i] == '/') :: p[..i]
  }

  /**
   * The ancestors of `p` are exactly its non-empty prefixes that end the
   * path or are followed by a `/`: `p` and every directory above it.
   */
  lemma AncestorsExact(p: Path)
    ensures forall i :: 0 < i < |p| && p[i] == '/' ==> p[..i] in Ancestors(p)
    ensures forall a :: a in Ancestors(p) ==> a != [] && a <= p && (|a| == |p| || p[|a|] == '/')
  {
  }

  /**
   * The ancestors of an ancestor of `p` are ancestors of `p`: creating `p`
   * creates every directory on the way to it.
   */
  lemma AncestorsClosed(p: Path, a: Path)
    requires a in Ancestors(p)
    ensures Ancestors(a) <= Ancestors(p)
  {
    AncestorsExact(p);
    AncestorsExact(a);
    forall b | b in Ancestors(a) ensures b in Ancestors(p) {
      assert b == p[..|b|];
      if |b| < |a| {
        assert p[|b|] == a[|b|] == '/';
      }
    }
  }

  /** A `/` placed right before a slash-free tail is the last `/` of the whole. */
  lemma RFindBeforeTail(s: string, t: string)
    requires |s| > 0 && s[|s| - 1] == '/' && '/' !in t
    ensures RFind(s + t, '/') == |s| - 1
  {
    assert (s + t)[|s| - 1] == '/';
    forall j | |s| <= j < |s + t| ensures (s + t)[j] != '/' {
      assert (s + t)[j] == t[j - |s|] && t[j - |s|] in t;
    }
  }

  /** The base name of `os.path.join(root, name)` is `name` when `name` has no `/`. */
  lemma BasenameOfJoin(root: Path, name: string)
    requires '/' !in name
    ensures Basename(Join(root, name)) == name
  {
    assert forall j :: 0 <= j < |name| ==> name[j] != '/' by {
      forall j | 0 <= j < |name| ensures name[j] != '/' {
        assert name[j] in name;
      }
    }
    if root == [] {
    } else if root[|root| - 1] == '/' {
      RFindBeforeTail(root, name);
      assert (root + name)[|root|..] == name;
    } else {
      RFindBeforeTail(root + "/", name);
      assert root + "/" + name == (root + "/") + name;
      assert (root + "/" + name)[|root| + 1..] == name;
    }
  }

  /** Joining one directory with two relative-or-absolute-alike names is injective. */
  lemma JoinInjective(a: Path, b1: Path, b2: Path)
    requires (|b1| > 0 && b1[0] == '/') == (|b2| > 0 && b2[0] == '/')
    ensures Join(a, b1) == Join(a, b2) ==> b1 == b2
  {
    if Join(a, b1) == Join(a, b2) && !(|b1| > 0 && b1[0] == '/') {
      var r := Join(a, b1);
      var sep := if a == [] || a[|a| - 1] == '/' then [] else "/";
      assert r == a + sep + b1 && r == a + sep + b2;
      assert r[|a + sep|..] == b1 && r[|a + sep|..] == b2;
    }
  }
}
