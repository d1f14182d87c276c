// The string helpers of libfskit/path.c: join, dirname, basename, depth,
// split and sanitize. Paths are C strings without NUL characters.
module PathStr {
  import opened Strs

  /** One '/' dropped from the end of s, if it ends with one. */
  function TrimSlashEnd(s: string): string
  {
    if |s| > 0 && s[|s| - 1] == '/' then s[..|s| - 1] else s
  }

  /** One '/' dropped from the front of s, if it starts with one. */
  function TrimSlashStart(s: string): string
  {
    if |s| > 0 && s[0] == '/' then s[1..] else s
  }

  /**
   * fskit_fullpath: join root and path. A '/' is inserted when neither side
   * has one at the seam, and path's leading '/' is dropped when both do.
   */
  function FullPath(root: string, path: string): (r: string)
  {
    if |root| > 0 then
      var rootSlash := root[|root| - 1] == '/';
      var pathSlash := |path| > 0 && path[0] == '/';
      if !rootSlash && !pathSlash then root + "/" + path
      else if rootSlash && pathSlash then root + path[1..]
      else root + path
    else root + path
  }

  /** Joined paths meet at exactly one '/'; an empty root leaves the path as it is. */
  lemma FullPathSeam(root: string, path: string)
    ensures |root| > 0 ==> FullPath(root, path) == TrimSlashEnd(root) + "/" + TrimSlashStart(path)
    ensures |root| == 0 ==> FullPath(root, path) == path
  {
    if |root| > 0 && root[|root| - 1] == '/' {
      assert root == root[..|root| - 1] + "/";
      if |path| > 0 && path[0] == '/' {
        assert path == "/" + path[1..];
      }
    } else if |root| > 0 && |path| > 0 && path[0] == '/' {
      assert path == "/" + path[1..];
    }
  }

  /** Index of the last c in s, or -1. */
  function LastIndex(s: string, c: char): (i: int)
    ensures -1 <= i < |s|
    ensures i >= 0 ==> s[i] == c
    ensures forall k :: i < k < |s| ==> s[k] != c
  {
    if |s| == 0 then -1
    else if s[|s| - 1] == c then |s| - 1
    else LastIndex(s[..|s| - 1], c)
  }

  /**
   * What fskit_dirname computes: "/" for "" and "/"; otherwise everything
   * before the last '/', except that a leading '/' is kept, and "" when
   * there is no '/' at all.
   */
  function DirnameOf(path: string): string
  {
    if |path| == 0 || path == "/" then "/"
    else
      var i := LastIndex(path, '/');
      if i < 0 then ""
      else if i == 0 then "/"
      else path[..i]
  }

  /**
   * fskit_dirname, scanning back from the terminator for the last '/'.
   * The C first tests path[strlen(path)] for '/' (path.c:98-101); that
   * character is the terminator, so the test never fires, and the model
   * starts its scan at the last character instead.
   */
  method Dirname(path: string) returns (dest: string)
    ensures dest == DirnameOf(path)
  {
    if |path| == 0 || path == "/" {
      return "/";
    }
    var delim := |path| - 1;
    while delim >= 0 && path[delim] != '/'
      invariant -1 <= delim < |path|
      invariant LastIndex(path, '/') == LastIndex(path[..delim + 1], '/')
    {
      assert path[..delim + 1][..delim] == path[..delim];
      delim := delim - 1;
    }
    if delim < 0 {
      delim := 0;
    }
    if delim == 0 && path[0] == '/' {
      delim := 1;
    }
    dest := path[..delim];
  }

  /** The directory part of "/" and "" is "/", and so is that of a one-component absolute path. */
  lemma DirnameOfRoot(name: string)
    requires forall k :: 0 <= k < |name| ==> name[k] != '/'
    ensures DirnameOf("") == "/" && DirnameOf("/") == "/"
    ensures DirnameOf("/" + name) == "/"
  {
    var p := "/" + name;
    if |name| > 0 {
      assert LastIndex(p, '/') == 0 by {
        assert p[0] == '/';
        assert forall k :: 0 < k < |p| ==> p[k] != '/';
      }
    }
  }

  /**
   * Otherwise the directory part is the prefix before the last '/': path
   * is that prefix, one '/', and a '/'-free tail.
   */
  lemma DirnameOfPrefix(dir: string, name: string)
    requires |dir| > 0 && dir != "/"
    requires forall k :: 0 <= k < |name| ==> name[k] != '/'
    ensures DirnameOf(dir + "/" + name) == dir
  {
    var p := dir + "/" + name;
    assert p[|dir|] == '/';
    assert forall k :: |dir| < k < |p| ==> p[k] != '/' by {
      forall k | |dir| < k < |p| ensures p[k] != '/' {
        assert p[k] == name[k - |dir| - 1];
      }
    }
    LastIndexIs(p, '/', |dir|);
    assert p[..|dir|] == dir;
  }

  lemma LastIndexIs(s: string, c: char, i: nat)
    requires i < |s| && s[i] == c
    requires forall k :: i < k < |s| ==> s[k] != c
    ensures LastIndex(s, c) == i
  {
  }

  /** The length fskit_basename_len computes. */
  function BasenameLenOf(path: string): (n: nat)
    ensures n <= |path|
  {
    if path == "/" then 1
    else if |path| <= 1 then 0
    else
      var start := if path[|path| - 1] == '/' then |path| - 1 else |path|;
      |path| - (LastIndex(path[..start], '/') + 1)
  }

  /** fskit_basename_len, scanning back for the '/' before the last component. */
  method BasenameLen(path: string) returns (n: nat)
    ensures n == BasenameLenOf(path)
  {
    if path == "/" {
      return 1;
    }
    var delim := |path| - 1;
    if delim <= 0 {
      return 0;
    }
    if path[delim] == '/' {
      delim := delim - 1;
    }
    ghost var start := delim + 1;
    while delim >= 0 && path[delim] != '/'
      invariant -1 <= delim < start
      invariant LastIndex(path[..start], '/') == LastIndex(path[..delim + 1], '/')
    {
      assert path[..delim + 1][..delim] == path[..delim];
      delim := delim - 1;
    }
    delim := delim + 1;
    n := |path| - delim;
  }

  /** fskit_basename: the last BasenameLenOf(path) characters of path. */
  function Basename(path: string): (r: string)
    ensures |r| == BasenameLenOf(path) && path == path[..|path| - |r|] + r
  {
    path[|path| - BasenameLenOf(path)..]
  }

  /** The basename of "/" is "/"; that of dir + "/" + name is name, for a '/'-free name. */
  lemma BasenameOfComponent(dir: string, name: string)
    requires forall k :: 0 <= k < |name| ==> name[k] != '/'
    requires |name| > 0
    ensures Basename("/") == "/"
    ensures Basename(dir + "/" + name) == name
  {
    var p := dir + "/" + name;
    assert |p| == |dir| + 1 + |name|;
    assert p[|dir|] == '/';
    assert p[|p| - 1] == name[|name| - 1] != '/';
    assert p != "/";
    assert forall k :: |dir| < k < |p| ==> p[k] != '/' by {
      forall k | |dir| < k < |p| ensures p[k] != '/' {
        assert p[k] == name[k - |dir| - 1];
      }
    }
    assert p[..|p|] == p;
    LastIndexIs(p, '/', |dir|);
    assert BasenameLenOf(p) == |name|;
    assert p[|dir| + 1..] == name;
  }

  /** Number of '/' characters in s. */
  function Slashes(s: string): nat
  {
    if |s| == 0 then 0 else (if s[0] == '/' then 1 else 0) + Slashes(s[1..])
  }

  /** What fskit_depth computes: the '/'s of path, a single trailing one not counted. */
  function DepthOf(path: string): nat
  {
    if |path| <= 1 then 0
    else if path[|path| - 1] == '/' then Slashes(path[..|path| - 1])
    else Slashes(path)
  }

  /** fskit_depth: count the '/'s scanning down from the end. */
  method Depth(path: string) returns (depth: nat)
    ensures depth == DepthOf(path)
  {
    var i := |path| - 1;
    if i <= 0 {
      return 0;
    }
    if path[i] == '/' {
      i := i - 1;
    }
    ghost var t := path[..i + 1];
    depth := 0;
    while i >= 0
      invariant -1 <= i < |t|
      invariant depth == Slashes(t[i + 1..])
    {
      assert t[i..][1..] == t[i + 1..];
      if path[i] == '/' {
        depth := depth + 1;
      }
      i := i - 1;
    }
    assert t[0..] == t;
    assert path[..|path|] == path;
  }

  lemma SlashesAppend(s: string, c: char)
    ensures Slashes(s + [c]) == Slashes(s) + (if c == '/' then 1 else 0)
  {
    if |s| > 0 {
      assert (s + [c])[1..] == s[1..] + [c];
      SlashesAppend(s[1..], c);
    }
  }

  /**
   * fskit_depth("/") is 0, one trailing '/' does not change the depth, and
   * otherwise the depth is the number of '/'s.
   */
  lemma DepthProperties(path: string)
    requires |path| > 0 && path[|path| - 1] != '/'
    ensures DepthOf("/") == 0
    ensures DepthOf(path + "/") == DepthOf(path)
    ensures |path| > 1 ==> DepthOf(path) == Slashes(path)
  {
    assert (path + "/")[..|path|] == path;
    if |path| == 1 {
      assert path[1..] == [];
      assert Slashes(path) == 0;
    }
  }

  /** Depth of a component appended to a '/'-free-ending directory path goes up by one. */
  lemma DepthAppend(dir: string, name: string)
    requires forall k :: 0 <= k < |name| ==> name[k] != '/'
    requires |name| > 0
    ensures Slashes(dir + "/" + name) == Slashes(dir) + 1
  {
    SlashesConcat(dir, "/" + name);
    SlashesConcat("/", name);
    SlashesNone(name);
    assert dir + "/" + name == dir + ("/" + name);
  }

  lemma {:induction false} SlashesConcat(a: string, b: string)
    ensures Slashes(a + b) == Slashes(a) + Slashes(b)
  {
    if |a| > 0 {
      assert (a + b)[1..] == a[1..] + b;
      SlashesConcat(a[1..], b);
    } else {
      assert a + b == b;
    }
  }

  lemma {:induction false} SlashesNone(s: string)
    requires forall k :: 0 <= k < |s| ==> s[k] != '/'
    ensures Slashes(s) == 0
  {
    if |s| > 0 {
      SlashesNone(s[1..]);
    }
  }

  const SLASH: set<char> := {'/'}

  /** path with every '/' overwritten by NUL, as fskit_path_split leaves its argument. */
  function Nulled(s: string): string
  {
    seq(|s|, k requires 0 <= k < |s| => NullOf(s[k]))
  }

  function NullOf(c: char): char
  {
    if c == '/' then 0 as char else c
  }

  /** p is s with the '/'s before i overwritten, and untouched from i on. */
  ghost predicate NulledUpTo(p: string, s: string, i: nat)
  {
    && |p| == |s| && i <= |s|
    && (forall k :: 0 <= k < i ==> p[k] == NullOf(s[k]))
    && (forall k :: i <= k < |s| ==> p[k] == s[k])
  }

  lemma NulledAdvance(p: string, s: string, i: nat, j: nat)
    requires NulledUpTo(p, s, i) && i <= j <= |s|
    requires forall k :: i <= k < j ==> s[k] != '/'
    ensures NulledUpTo(p, s, j)
  {
  }

  lemma NulledSlash(p: string, s: string, i: nat)
    requires NulledUpTo(p, s, i) && i < |s| && s[i] == '/'
    ensures NulledUpTo(p[i := 0 as char], s, i + 1)
  {
  }

  lemma NulledAll(p: string, s: string)
    requires NulledUpTo(p, s, |s|)
    ensures p == Nulled(s)
  {
  }

  /** A '/' at position i is skipped by the name scan. */
  lemma FieldsSkip(s: string, i: nat)
    requires i < |s| && s[i] == '/'
    ensures Fields(s[i..], SLASH) == Fields(s[i + 1..], SLASH)
  {
    assert s[i..][0] in SLASH;
    assert s[i..][1..] == s[i + 1..];
  }

  /** A run of non-'/' characters from i to j is the next name. */
  lemma FieldsRun(s: string, i: nat, j: nat)
    requires i < j <= |s|
    requires forall k :: i <= k < j ==> s[k] != '/'
    requires j == |s| || s[j] == '/'
    ensures Fields(s[i..], SLASH) == [s[i..j]] + Fields(s[j..], SLASH)
  {
    var t := s[i..];
    forall k | 0 <= k < j - i ensures t[k] !in SLASH {
      assert t[k] == s[i + k];
    }
    assert j - i == |t| || t[j - i] in SLASH;
    RunLenIs(t, SLASH, j - i);
    assert t[..j - i] == s[i..j];
    assert t[j - i..] == s[j..];
  }

  /** The inner loop of both passes: advance from i to the next '/' or the end. */
  method ScanName(path: array<char>, i: nat) returns (j: nat)
    requires i <= path.Length
    ensures i <= j <= path.Length
    ensures forall k :: i <= k < j ==> path[k] != '/'
    ensures j == path.Length || path[j] == '/'
  {
    j := i;
    while j < path.Length && path[j] != '/'
      invariant i <= j <= path.Length
      invariant forall k :: i <= k < j ==> path[k] != '/'
    {
      j := j + 1;
    }
  }

  /** The first pass of fskit_path_split: count the names. */
  method CountNames(path: array<char>) returns (numNames: nat)
    ensures numNames == |Fields(path[..], SLASH)|
  {
    ghost var s := path[..];
    var n := path.Length;
    numNames := 0;
    var i := 0;
    while i < n
      invariant 0 <= i <= n
      invariant numNames + |Fields(s[i..], SLASH)| == |Fields(s, SLASH)|
    {
      if path[i] != '/' {
        var j := ScanName(path, i);
        FieldsRun(s, i, j);
        numNames := numNames + 1;
        i := j;
      }
      if i < n {
        FieldsSkip(s, i);
        i := i + 1;
      }
    }
    assert s[n..] == [];
  }

  /** Overwrite the '/' at position i with NUL. */
  method NullSlash(path: array<char>, i: nat)
    requires i < path.Length && path[i] == '/'
    modifies path
    ensures path[..] == old(path[..])[i := 0 as char]
  {
    path[i] := 0 as char;
  }

  /**
   * fskit_path_split: one pass counts the names, a second records each
   * name and overwrites every '/' with NUL. The names are the maximal runs
   * of non-'/' characters, in order.
   */
  method PathSplit(path: array<char>) returns (numNames: nat, names: seq<string>)
    modifies path
    ensures numNames == |names|
    ensures names == Fields(old(path[..]), SLASH)
    ensures path[..] == Nulled(old(path[..]))
  {
    numNames := CountNames(path);
    ghost var s := path[..];
    var n := path.Length;
    names := [];
    var i := 0;
    while i < n
      invariant 0 <= i <= n && path.Length == n
      invariant NulledUpTo(path[..], s, i)
      invariant names + Fields(s[i..], SLASH) == Fields(s, SLASH)
    {
      if path[i] == '/' {
        FieldsSkip(s, i);
        NulledSlash(path[..], s, i);
        NullSlash(path, i);
        i := i + 1;
      } else {
        var next, name := TakeName(path, i, s);
        ghost var rest := Fields(s[next..], SLASH);
        assert names + [name] + rest == names + ([name] + rest);
        names := names + [name];
        i := next;
      }
    }
    assert s[n..] == [];
    NulledAll(path[..], s);
  }

  /**
   * The second pass's inner loop: the name starting at i runs to the next
   * '/' (overwritten with NUL) or the end; the scan resumes after it.
   */
  method TakeName(path: array<char>, i: nat, ghost s: string) returns (next: nat, name: string)
    requires i < path.Length && path[i] != '/' && NulledUpTo(path[..], s, i)
    modifies path
    ensures i < next <= path.Length
    ensures NulledUpTo(path[..], s, next)
    ensures Fields(s[i..], SLASH) == [name] + Fields(s[next..], SLASH)
  {
    var j := ScanName(path, i);
    FieldsRun(s, i, j);
    NulledAdvance(path[..], s, i, j);
    name := path[i..j];
    assert name == s[i..j];
    if j < path.Length {
      FieldsSkip(s, j);
      NulledSlash(path[..], s, j);
      NullSlash(path, j);
      next := j + 1;
    } else {
      next := j;
    }
  }

  /** fskit_sanitize_path: drop one trailing '/' from any path but "/". */
  function SanitizePath(path: string): (r: string)
    ensures path == "/" ==> r == path
    ensures path != "/" && |path| > 0 && path[|path| - 1] == '/' ==> r + "/" == path
    ensures (path == "/" || |path| == 0 || path[|path| - 1] != '/') ==> r == path
  {
    if path != "/" && |path| > 0 && path[|path| - 1] == '/' then path[..|path| - 1] else path
  }
}
