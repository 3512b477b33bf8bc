/**
 * The two Node.js POSIX path functions the thumbnail trigger uses:
 * `path.dirname`, following Node's right-to-left scan, and `path.join` of a
 * directory with a single file name.
 */
module NodePath {

  /** The path contains no empty segment in its interior ("a//b"). */
  predicate NoDoubleSlash(p: string) {
    forall k :: 0 <= k < |p| - 1 ==> !(p[k] == '/' && p[k + 1] == '/')
  }

  /**
   * Node's dirname scan from index `i` down to 1: the first slash met after
   * some non-slash character, or -1 when there is none.
   */
  function DirEnd(p: string, i: int, matchedSlash: bool): (end: int)
    requires i < |p|
    ensures end == -1 || (1 <= end <= i && p[end] == '/')
    ensures end >= 1 && matchedSlash && end == i ==> false
    decreases i
  {
    if i < 1 then -1
    else if p[i] == '/' then (if !matchedSlash then i else DirEnd(p, i - 1, true))
    else DirEnd(p, i - 1, false)
  }

  /**
   * `path.dirname(p)`: "." when there is no directory part, "/" or "//" for
   * the root, and otherwise the prefix of `p` before the slash that precedes
   * the last segment.
   */
  function DirName(p: string): (d: string)
    ensures d == "." || d == "/" || d == "//" || (|d| < |p| && d == p[..|d|] && p[|d|] == '/')
    ensures |p| > 0 && p[|p| - 1] != '/' ==> forall j :: |d| < j < |p| ==> p[j] != '/'
  {
    if |p| == 0 then "."
    else
      DirEndScanned(p, |p| - 2);
      var end := DirEnd(p, |p| - 1, true);
      if end == -1 then (if p[0] == '/' then "/" else ".")
      else if p[0] == '/' && end == 1 then "//"
      else p[..end]
  }

  /** Once past a non-slash, the scan stops at the first slash below `i`. */
  lemma {:induction false} DirEndScanned(p: string, i: int)
    requires i < |p|
    ensures forall j :: 1 <= j <= i && j > DirEnd(p, i, false) ==> p[j] != '/'
    decreases i
  {
    if i >= 1 && p[i] != '/' {
      DirEndScanned(p, i - 1);
    }
  }

  /**
   * `path.join(dir, name)` for a file name `name` that holds no slash: the
   * name alone when `dir` is empty or ".", otherwise `dir`, one slash unless
   * `dir` already ends with one, and the name.
   */
  function JoinPath(dir: string, name: string): (r: string)
    ensures |name| <= |r| && r[|r| - |name|..] == name
    ensures dir == "" || dir == "." ==> r == name
    ensures dir != "" && dir != "." ==>
      && |dir| <= |r| - |name| <= |dir| + 1
      && r[..|dir|] == dir
      && r[|r| - |name| - 1] == '/'
  {
    if dir == "" || dir == "." then name
    else if dir[|dir| - 1] == '/' then dir + name
    else dir + "/" + name
  }

  /** The scan finds no slash in a stretch of the path without slashes. */
  lemma {:induction false} DirEndNoSlash(p: string, i: int, m: bool)
    requires i < |p|
    requires forall j :: 1 <= j <= i ==> p[j] != '/'
    ensures DirEnd(p, i, m) == -1
    decreases i
  {
    if i >= 1 {
      DirEndNoSlash(p, i - 1, false);
    }
  }

  /** Scanning a final segment without slashes stops at the slash before it. */
  lemma {:induction false} DirEndAtSlash(p: string, s: nat, i: int, m: bool)
    requires 1 <= s < i < |p| && p[s] == '/'
    requires forall j :: s < j <= i ==> p[j] != '/'
    ensures DirEnd(p, i, m) == s
    decreases i
  {
    if i - 1 > s {
      DirEndAtSlash(p, s, i - 1, false);
    }
  }

  /** dirname of a name without slashes is ".". */
  lemma DirNameOfName(n: string)
    requires forall j :: 0 <= j < |n| ==> n[j] != '/'
    ensures DirName(n) == "."
  {
    if |n| > 0 {
      DirEndNoSlash(n, |n| - 1, true);
    }
  }

  /** Without empty interior segments, dirname is ".", "/" or a prefix ending before a slash, itself not ending in one. */
  lemma DirNameShape(p: string)
    requires NoDoubleSlash(p)
    ensures var d := DirName(p);
      d == "." || d == "/" || (0 < |d| < |p| && d == p[..|d|] && p[|d|] == '/' && d[|d| - 1] != '/')
  {
    if |p| > 0 {
      var end := DirEnd(p, |p| - 1, true);
      if end != -1 {
        assert p[end] == '/' && 1 <= end;
        assert p[end - 1] != '/';
        assert !(p[0] == '/' && end == 1);
      }
    }
  }

  /** dirname of the root joined with a name is the root. */
  lemma JoinOntoRoot(n: string)
    requires |n| > 0 && forall j :: 0 <= j < |n| ==> n[j] != '/'
    ensures DirName(JoinPath("/", n)) == "/"
  {
    var q := JoinPath("/", n);
    assert q == "/" + n;
    DirEndNoSlash(q, |q| - 1, true);
  }

  /** dirname of a directory without a trailing slash joined with a name is that directory. */
  lemma JoinOntoDirectory(d: string, n: string)
    requires |d| > 0 && d != "." && d[|d| - 1] != '/'
    requires |n| > 0 && forall j :: 0 <= j < |n| ==> n[j] != '/'
    ensures DirName(JoinPath(d, n)) == d
  {
    var q := JoinPath(d, n);
    assert q == d + "/" + n;
    assert q[|d|] == '/';
    assert forall j :: |d| < j <= |q| - 1 ==> q[j] == n[j - |d| - 1];
    DirEndAtSlash(q, |d|, |q| - 1, true);
    assert !(q[0] == '/' && |d| == 1);
    assert q[..|d|] == d;
  }

  /**
   * A file joined onto the directory of a path lies in that same directory:
   * dirname(join(dirname(p), n)) == dirname(p), for a path with no empty
   * interior segment and a non-empty name without slashes.
   */
  lemma JoinStaysInDirectory(p: string, n: string)
    requires NoDoubleSlash(p)
    requires |n| > 0 && forall j :: 0 <= j < |n| ==> n[j] != '/'
    ensures DirName(JoinPath(DirName(p), n)) == DirName(p)
  {
    var d := DirName(p);
    DirNameShape(p);
    if d == "." {
      DirNameOfName(n);
    } else if d == "/" {
      JoinOntoRoot(n);
    } else {
      JoinOntoDirectory(d, n);
    }
  }
}
