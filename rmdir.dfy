// fskit_rmdir (libfskit/rmdir.c): length checks, resolve the parent of
// the sanitized path, test the target, detach it, then try to destroy it.
module Rmdir {
  import opened Opt
  import opened Errno
  import opened Defs
  import ES = EntrySet
  import PathStr
  import Route
  import opened Entry
  import opened Resolve
  import Unlink

  /**
   * What fskit_rmdir does to the store. The path-length test and the
   * basename-length test look at the path as given; everything after them
   * works on the path without its trailing '/'. The target must be a
   * directory whose child set holds nothing but "." and "..".
   */
  function RmdirSpec(s: Store, path: string, user: int, group: int,
                     destroyHook: Route.Dispatch, now: int): (res: (int, Store))
    requires WellFormed(s)
    ensures WellFormed(res.1) && res.1.Keys == s.Keys
    ensures res.0 != 0 ==> res.1 == s
    ensures |path| >= PATH_MAX || PathStr.BasenameLenOf(path) > NAMEMAX ==> res.0 == -ENAMETOOLONG
  {
    if |path| >= PATH_MAX || PathStr.BasenameLenOf(path) > NAMEMAX then (-ENAMETOOLONG, s)
    else RmdirSanitized(s, PathStr.SanitizePath(path), user, group, destroyHook, now)
  }

  /** The part of fskit_rmdir after the length tests, on the sanitized path. */
  function RmdirSanitized(s: Store, path: string, user: int, group: int,
                          destroyHook: Route.Dispatch, now: int): (res: (int, Store))
    requires WellFormed(s)
    ensures WellFormed(res.1) && res.1.Keys == s.Keys
    ensures res.0 != 0 ==> res.1 == s
  {
    var name := PathStr.Basename(path);
    var o := ResolveSpec(s, PathStr.DirnameOf(path), user, group, false);
    ResolveOutcome(s, PathStr.DirnameOf(path), user, group, false);
    if o.err != 0 then (o.err, s)
    else
      var parent := o.ent.value;
      if s[parent].kind != TYPE_DIR then (-ENOTDIR, s)
      else
        var dent := ES.Find(s[parent].children, name);
        if dent.None? then (-ENOENT, s)
        else
          FoundIn(s[parent].children, s.Keys, name);
          if s[dent.value].kind != TYPE_DIR then (-ENOTDIR, s)
          else if ES.Count(s[dent.value].children) > 2 then (-ENOTEMPTY, s)
          else
            var (drc, s1) := DetachStore(s, parent, name, now);
            if drc != 0 then (drc, s)
            else (0, TryDestroyStore(s1, dent.value, destroyHook, 0).2)
  }

  /** The parent fskit_rmdir resolves for a path that passed the length tests. */
  function ParentOf(s: Store, path: string, user: int, group: int): Outcome
    requires WellFormed(s)
  {
    ResolveSpec(s, PathStr.DirnameOf(PathStr.SanitizePath(path)), user, group, false)
  }

  /** The conditions under which fskit_rmdir gets as far as the target entry. */
  ghost predicate Reaches(s: Store, path: string, user: int, group: int)
    requires WellFormed(s)
  {
    && |path| < PATH_MAX && PathStr.BasenameLenOf(path) <= NAMEMAX
    && ParentOf(s, path, user, group).err == 0 && ParentOf(s, path, user, group).ent.Some?
    && ParentOf(s, path, user, group).ent.value in s
    && s[ParentOf(s, path, user, group).ent.value].kind == TYPE_DIR
  }

  /** The statuses fskit_rmdir can return. */
  lemma RmdirStatus(s: Store, path: string, user: int, group: int, destroyHook: Route.Dispatch, now: int)
    requires WellFormed(s)
    ensures var rc := RmdirSpec(s, path, user, group, destroyHook, now).0;
      rc in {0, -ENAMETOOLONG, -ENOENT, -ENOTDIR, -EACCES, -EINVAL, -ENOTEMPTY}
  {
    if |path| < PATH_MAX && PathStr.BasenameLenOf(path) <= NAMEMAX {
      var p := PathStr.SanitizePath(path);
      assert RmdirSpec(s, path, user, group, destroyHook, now) == RmdirSanitized(s, p, user, group, destroyHook, now);
      ResolveOutcome(s, PathStr.DirnameOf(p), user, group, false);
      var o := ResolveSpec(s, PathStr.DirnameOf(p), user, group, false);
      if o.err == 0 && s[o.ent.value].kind == TYPE_DIR {
        var parent := o.ent.value;
        var dent := ES.Find(s[parent].children, PathStr.Basename(p));
        if dent.Some? {
          FoundIn(s[parent].children, s.Keys, PathStr.Basename(p));
          var drc := DetachStore(s, parent, PathStr.Basename(p), now).0;
          assert drc == 0 || drc == -ENOENT || drc == -ENOTEMPTY;
        }
      }
    }
  }

  /**
   * Once the parent is found: -ENOENT for an absent name, -ENOTDIR for a
   * target that is not a directory, -ENOTEMPTY for a child set holding
   * more than "." and ".."; none of them changes anything.
   */
  lemma RmdirRefusals(s: Store, path: string, user: int, group: int, destroyHook: Route.Dispatch, now: int)
    requires WellFormed(s) && Reaches(s, path, user, group)
    ensures var p := ParentOf(s, path, user, group).ent.value;
      var d := ES.Find(s[p].children, PathStr.Basename(PathStr.SanitizePath(path)));
      var res := RmdirSpec(s, path, user, group, destroyHook, now);
      && (d.None? ==> res == (-ENOENT, s))
      && (d.Some? && d.value in s && s[d.value].kind != TYPE_DIR ==> res == (-ENOTDIR, s))
      && (d.Some? && d.value in s && s[d.value].kind == TYPE_DIR && ES.Count(s[d.value].children) > 2 ==>
            res == (-ENOTEMPTY, s))
  {
  }

  /**
   * An empty directory other than the parent itself is detached: its name
   * leaves the parent, the other names stay, the result is 0, and it is
   * destroyed exactly when it had at most one link and no opens;
   * otherwise it keeps one link less.
   */
  lemma RmdirRemoves(s: Store, path: string, user: int, group: int, destroyHook: Route.Dispatch, now: int)
    requires WellFormed(s) && Reaches(s, path, user, group)
    requires var p := ParentOf(s, path, user, group).ent.value;
      var name := PathStr.Basename(PathStr.SanitizePath(path));
      var d := ES.Find(s[p].children, name);
      && d.Some? && d.value in s && s[d.value].kind == TYPE_DIR && ES.Count(s[d.value].children) <= 2
      && Detachable(s, p, name)
    ensures var p := ParentOf(s, path, user, group).ent.value;
      var name := PathStr.Basename(PathStr.SanitizePath(path));
      var c := ES.Find(s[p].children, name).value;
      var (rc, s') := RmdirSpec(s, path, user, group, destroyHook, now);
      && rc == 0
      && ES.Find(s'[p].children, name) == None
      && (forall n :: n != name ==> ES.Find(s'[p].children, n) == ES.Find(s[p].children, n))
      && (s[c].linkCount <= 1 && s[c].openCount <= 0 ==> s'[c].kind == TYPE_DEAD)
      && (s[c].linkCount > 1 || s[c].openCount > 0 ==>
            s'[c] == s[c].(linkCount := if s[c].linkCount > 0 then s[c].linkCount - 1 else 0))
  {
    var p := ParentOf(s, path, user, group).ent.value;
    var name := PathStr.Basename(PathStr.SanitizePath(path));
    var c := ES.Find(s[p].children, name).value;
    var s1 := DetachStore(s, p, name, now).1;
    assert s1 == UnbindStore(s, p, name, now).1;
    assert c != p;
    assert s1[c].openCount == s[c].openCount;
    assert s1[p].children == RmdirSpec(s, path, user, group, destroyHook, now).1[p].children;
  }

  /** A path that ends in a '/' and its length-checked form without it give the same result. */
  lemma RmdirTrailingSlash(s: Store, t: string, user: int, group: int, destroyHook: Route.Dispatch, now: int)
    requires WellFormed(s)
    requires |t| > 0 && t[|t| - 1] != '/'
    requires |t + "/"| < PATH_MAX && PathStr.BasenameLenOf(t + "/") <= NAMEMAX
    ensures RmdirSpec(s, t + "/", user, group, destroyHook, now) == RmdirSpec(s, t, user, group, destroyHook, now)
  {
    var q := t + "/";
    assert q[..|q| - 1] == t;
    assert PathStr.SanitizePath(q) == t;
    if |t| > 1 {
      assert q[..|t|] == t;
    }
    assert PathStr.BasenameLenOf(t) <= PathStr.BasenameLenOf(q);
    assert PathStr.SanitizePath(t) == t;
    assert RmdirSpec(s, q, user, group, destroyHook, now) == RmdirSanitized(s, t, user, group, destroyHook, now);
  }

  /**
   * fskit_rmdir and fskit_unlink test emptiness differently: a directory
   * with one child has three names in its set, which rmdir refuses, but
   * only one counted child, which the detach under fskit_unlink accepts.
   */
  lemma RmdirRefusesWhatUnlinkRemoves(s: Store, path: string, user: int, group: int,
                                      detachHook: Route.Dispatch, destroyHook: Route.Dispatch, now: int)
    requires WellFormed(s) && Reaches(s, path, user, group)
    requires path == PathStr.SanitizePath(path)
    requires var p := ParentOf(s, path, user, group).ent.value;
      var name := PathStr.Basename(path);
      var d := ES.Find(s[p].children, name);
      && d.Some? && d.value in s && s[d.value].kind == TYPE_DIR && ES.Count(s[d.value].children) > 2
      && Detachable(s, p, name)
    ensures RmdirSpec(s, path, user, group, destroyHook, now) == (-ENOTEMPTY, s)
    ensures Unlink.UnlinkSpec(s, path, user, group, detachHook, destroyHook, now).0 == 0
  {
    assert PathStr.Basename(path) == path[|path| - PathStr.BasenameLenOf(path)..];
    Unlink.UnlinkRemoves(s, path, user, group, detachHook, destroyHook, now);
  }

  /** fskit_rmdir on the core. */
  method Rmdir(core: Core, path: string, user: int, group: int,
               destroyHook: Route.Dispatch, now: int) returns (rc: int)
    requires core.Valid()
    modifies core
    ensures core.Valid()
    ensures (rc, core.ents) == RmdirSpec(old(core.ents), path, user, group, destroyHook, now)
  {
    if |path| >= PATH_MAX {
      return -ENAMETOOLONG;
    }
    var len := PathStr.BasenameLen(path);
    if len > NAMEMAX {
      return -ENAMETOOLONG;
    }
    var p := PathStr.SanitizePath(path);
    var dir := PathStr.Dirname(p);
    var nameLen := PathStr.BasenameLen(p);
    var name := p[|p| - nameLen..];
    var o := ResolvePath(core, dir, user, group, false);
    ResolveOutcome(core.ents, dir, user, group, false);
    if o.err != 0 {
      return o.err;
    }
    var parent := o.ent.value;
    if core.ents[parent].kind != TYPE_DIR {
      return -ENOTDIR;
    }
    var dent := ES.Find(core.ents[parent].children, name);
    if dent.None? {
      return -ENOENT;
    }
    FoundIn(core.ents[parent].children, core.ents.Keys, name);
    if core.ents[dent.value].kind != TYPE_DIR {
      return -ENOTDIR;
    }
    if ES.Count(core.ents[dent.value].children) > 2 {
      return -ENOTEMPTY;
    }
    rc := core.Detach(parent, name, now);
    if rc != 0 {
      return rc;
    }
    var destroyed, _ := core.TryDestroy(dent.value, destroyHook, 0);
    rc := 0;
  }
}
