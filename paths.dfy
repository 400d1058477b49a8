/**
 * POSIX paths as the installers use them: `path.join(dir, name)` with a single
 * name component, `path.parse(p).dir`, and the directory-tree effects of
 * removing and moving a directory.
 */
module Paths {
  import opened Wrappers

  type Path = string

  /** A single path component: non-empty and without a separator. */
  predicate IsName(s: string) {
    |s| > 0 && forall i :: 0 <= i < |s| ==> s[i] != '/'
  }

  /** A directory as `path.normalize` leaves it: no trailing separator except the root itself. */
  predicate IsNormalDir(d: Path) {
    d == "" || d == "/" || d[|d| - 1] != '/'
  }

  /** An absolute, normalized directory other than the root. */
  predicate IsAbsoluteDir(d: Path) {
    |d| >= 2 && d[0] == '/' && d[|d| - 1] != '/'
  }

  /** `path.join(dir, name)` for a normalized directory and one name component. */
  function Join(dir: Path, name: string): Path {
    if dir == "" then name
    else if dir[|dir| - 1] == '/' then dir + name
    else dir + "/" + name
  }

  /**
   * The index of the separator in front of the last name of `p`, scanning
   * p[start..hi) from the right as Node's `path.posix.parse` does: trailing
   * separators are skipped until a name character has been seen (`inName`).
   */
  function LastSeparator(p: Path, start: nat, hi: nat, inName: bool): (r: Option<nat>)
    requires hi <= |p|
    ensures r.Some? ==> start <= r.value < hi && p[r.value] == '/'
    decreases hi
  {
    if hi <= start then None
    else if p[hi - 1] == '/' then
      if inName then Some(hi - 1) else LastSeparator(p, start, hi - 1, false)
    else LastSeparator(p, start, hi - 1, true)
  }

  /** `path.parse(p).dir` on POSIX. */
  function ParseDir(p: Path): (d: Path)
    ensures d <= p
  {
    if p == [] then ""
    else
      var start := if p[0] == '/' then 1 else 0;
      match LastSeparator(p, start, |p|, false)
      case Some(i) => p[..i]
      case None => if p[0] == '/' then "/" else ""
  }

  /** Scanning over name characters only moves the scan to the left of them, now inside a name. */
  lemma {:induction false} LastSeparatorSkipsName(p: Path, start: nat, lo: nat, hi: nat, inName: bool)
    requires start <= lo < hi <= |p|
    requires forall i :: lo <= i < hi ==> p[i] != '/'
    ensures LastSeparator(p, start, hi, inName) == LastSeparator(p, start, lo, true)
    decreases hi
  {
    if hi - 1 > lo {
      LastSeparatorSkipsName(p, start, lo, hi - 1, true);
    }
  }

  /** The directory of `Join(d, name)` is `d` again: the executable sits in the directory it was joined to. */
  lemma ParseDirOfJoin(d: Path, name: string)
    requires IsNormalDir(d) && IsName(name)
    ensures ParseDir(Join(d, name)) == d
  {
    var p := Join(d, name);
    if d == "" {
      assert p == name;
      LastSeparatorSkipsName(p, 0, 0, |p|, false);
    } else if d == "/" {
      assert p == "/" + name;
      LastSeparatorSkipsName(p, 1, 1, |p|, false);
    } else {
      assert p == d + "/" + name;
      var start := if p[0] == '/' then 1 else 0;
      LastSeparatorSkipsName(p, start, |d| + 1, |p|, false);
      assert p[|d|] == '/';
      assert p[..|d|] == d;
    }
  }

  /** `p` is `root` or lies inside the directory `root`. */
  predicate Under(p: Path, root: Path) {
    p == root || (|root| < |p| && p[..|root|] == root && p[|root|] == '/')
  }

  /** What `fse.removeSync(root)` leaves: everything not inside `root`. */
  function RemoveTree(entries: set<Path>, root: Path): set<Path> {
    set p | p in entries && !Under(p, root)
  }

  /** The path `p`, inside `src`, carried over to the same place inside `dst`. */
  function Rebase(p: Path, src: Path, dst: Path): Path
    requires Under(p, src)
  {
    dst + p[|src|..]
  }

  /**
   * What renaming the directory `src` to `dst` leaves: the tree at `dst` is
   * replaced by the tree that was at `src`.
   */
  function MoveTree(entries: set<Path>, src: Path, dst: Path): set<Path> {
    (set p | p in entries && !Under(p, src) && !Under(p, dst))
    + (set p | p in entries && Under(p, src) :: Rebase(p, src, dst))
  }

  /**
   * When one path followed by a separator-led suffix is a prefix of another
   * such path, one of the two leading paths lies inside the other.
   */
  lemma PrefixMeansNested(a: Path, x: string, b: Path, y: string)
    requires |x| > 0 && x[0] == '/' && |y| > 0 && y[0] == '/'
    requires a + x <= b + y
    ensures Under(a, b) || Under(b, a)
  {
    if |a| < |b| {
      assert b[..|a|] == (b + y)[..|a|] == (a + x)[..|a|] == a;
      assert b[|a|] == (b + y)[|a|] == (a + x)[|a|] == x[0];
    } else if |a| > |b| {
      assert a[..|b|] == (a + x)[..|b|] == (b + y)[..|b|] == b;
      assert a[|b|] == (a + x)[|b|] == (b + y)[|b|] == y[0];
    } else {
      assert a == (a + x)[..|a|] == (b + y)[..|b|] == b;
    }
  }

  /** A path joined to `b` can lie inside one joined to `a` only when `a` and `b` are nested. */
  lemma JoinedUnderJoined(a: Path, x: string, b: Path, y: string)
    requires IsAbsoluteDir(a) && IsAbsoluteDir(b) && |x| > 0 && |y| > 0
    requires Under(Join(b, y), Join(a, x))
    ensures Under(a, b) || Under(b, a)
  {
    var p, q := Join(a, x), Join(b, y);
    assert p == a + ("/" + x);
    assert q == b + ("/" + y);
    assert p <= q by {
      if p != q {
        assert q[..|p|] == p;
      }
    }
    PrefixMeansNested(a, "/" + x, b, "/" + y);
  }

  /**
   * A name joined to `a`, where `a` does not lie inside `b`, lies inside `b`
   * only by being `b` itself; and `b` lies inside it only if `b` lies inside `a`.
   */
  lemma JoinUnder(a: Path, name: string, b: Path)
    requires IsAbsoluteDir(a) && IsAbsoluteDir(b) && IsName(name) && !Under(a, b)
    ensures IsAbsoluteDir(Join(a, name))
    ensures Under(Join(a, name), b) ==> b == Join(a, name)
    ensures Under(b, Join(a, name)) ==> Under(b, a)
  {
    var p := Join(a, name);
    assert p == a + "/" + name;
  }

  /** A name joined to `a` is apart from any `b` that `a` is apart from. */
  lemma JoinApart(a: Path, name: string, b: Path)
    requires IsAbsoluteDir(a) && IsAbsoluteDir(b) && IsName(name)
    requires !Under(a, b) && !Under(b, a)
    ensures IsAbsoluteDir(Join(a, name))
    ensures !Under(Join(a, name), b) && !Under(b, Join(a, name))
  {
    JoinUnder(a, name, b);
  }
}
