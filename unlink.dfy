// fskit_unlink (libfskit/unlink.c): resolve the parent, find the name,
// detach it, run the detach route, then try to destroy the entry.
module Unlink {
  import opened Opt
  import opened Errno
  import opened Defs
  import ES = EntrySet
  import PathStr
  import Route
  import opened Entry
  import opened Resolve

  /**
   * What fskit_unlink does to the store. The detach route's status is
   * discarded (a failing route is logged and ignored), and so is that of
   * the destroy route; a -ENOENT from the detach itself, which is what a
   * ".." basename gets, still goes on to the route and the destroy attempt.
   */
  function UnlinkSpec(s: Store, path: string, user: int, group: int,
                      detachHook: Route.Dispatch, destroyHook: Route.Dispatch, now: int): (res: (int, Store))
    requires WellFormed(s)
    ensures WellFormed(res.1) && res.1.Keys == s.Keys
    ensures res.0 != 0 ==> res.1 == s
    ensures |PathStr.Basename(path)| > NAMEMAX ==> res.0 == -ENAMETOOLONG
  {
    var name := PathStr.Basename(path);
    if |name| > NAMEMAX then (-ENAMETOOLONG, s)
    else
      var o := ResolveSpec(s, PathStr.DirnameOf(path), user, group, false);
      ResolveOutcome(s, PathStr.DirnameOf(path), user, group, false);
      if o.err != 0 then (o.err, s)
      else
        var parent := o.ent.value;
        if s[parent].kind != TYPE_DIR then (-ENOTDIR, s)
        else
          var fent := ES.Find(s[parent].children, name);
          if fent.None? then (-ENOENT, s)
          else
            FoundIn(s[parent].children, s.Keys, name);
            var (drc, s1) := DetachStore(s, parent, name, now);
            if drc != 0 && drc != -ENOENT then (drc, s)
            else (0, TryDestroyStore(s1, fent.value, destroyHook, 0).2)
  }

  /** The parent fskit_unlink resolves, when it resolves. */
  function ParentOf(s: Store, path: string, user: int, group: int): Outcome
    requires WellFormed(s)
  {
    ResolveSpec(s, PathStr.DirnameOf(path), user, group, false)
  }

  /** The statuses fskit_unlink can return, and which of them leave the store alone. */
  lemma UnlinkStatus(s: Store, path: string, user: int, group: int,
                     detachHook: Route.Dispatch, destroyHook: Route.Dispatch, now: int)
    requires WellFormed(s)
    ensures var rc := UnlinkSpec(s, path, user, group, detachHook, destroyHook, now).0;
      rc in {0, -ENAMETOOLONG, -ENOENT, -ENOTDIR, -EACCES, -EINVAL, -ENOTEMPTY}
  {
    ResolveOutcome(s, PathStr.DirnameOf(path), user, group, false);
  }

  /** A failed parent resolution is returned as it is. */
  lemma UnlinkResolveError(s: Store, path: string, user: int, group: int,
                           detachHook: Route.Dispatch, destroyHook: Route.Dispatch, now: int)
    requires WellFormed(s)
    requires |PathStr.Basename(path)| <= NAMEMAX && ParentOf(s, path, user, group).err != 0
    ensures UnlinkSpec(s, path, user, group, detachHook, destroyHook, now)
            == (ParentOf(s, path, user, group).err, s)
  {
  }

  /** A parent that is not a directory gives -ENOTDIR; a name it lacks gives -ENOENT. */
  lemma UnlinkMissing(s: Store, path: string, user: int, group: int,
                      detachHook: Route.Dispatch, destroyHook: Route.Dispatch, now: int)
    requires WellFormed(s)
    requires |PathStr.Basename(path)| <= NAMEMAX && ParentOf(s, path, user, group).err == 0
    requires ParentOf(s, path, user, group).ent.Some? && ParentOf(s, path, user, group).ent.value in s
    ensures var p := ParentOf(s, path, user, group).ent.value;
      && (s[p].kind != TYPE_DIR ==> UnlinkSpec(s, path, user, group, detachHook, destroyHook, now) == (-ENOTDIR, s))
      && (s[p].kind == TYPE_DIR && ES.Find(s[p].children, PathStr.Basename(path)).None? ==>
            UnlinkSpec(s, path, user, group, detachHook, destroyHook, now) == (-ENOENT, s))
  {
    ResolveOutcome(s, PathStr.DirnameOf(path), user, group, false);
  }

  /**
   * There is no type test on the entry: any entry detach accepts, a
   * directory with at most two counted children included, is unlinked. Its
   * name leaves the parent, the other names stay, and the entry is
   * destroyed exactly when it had at most one link and no opens; otherwise
   * it keeps one link less.
   */
  lemma UnlinkRemoves(s: Store, path: string, user: int, group: int,
                      detachHook: Route.Dispatch, destroyHook: Route.Dispatch, now: int)
    requires WellFormed(s)
    requires |PathStr.Basename(path)| <= NAMEMAX && ParentOf(s, path, user, group).err == 0
    requires ParentOf(s, path, user, group).ent.Some?
    requires var p := ParentOf(s, path, user, group).ent.value;
      p in s && s[p].kind == TYPE_DIR && Detachable(s, p, PathStr.Basename(path))
    ensures var p := ParentOf(s, path, user, group).ent.value;
      var name := PathStr.Basename(path);
      var c := ES.Find(s[p].children, name).value;
      var (rc, s') := UnlinkSpec(s, path, user, group, detachHook, destroyHook, now);
      && rc == 0
      && ES.Find(s'[p].children, name) == None
      && (forall n :: n != name ==> ES.Find(s'[p].children, n) == ES.Find(s[p].children, n))
      && (s[c].linkCount <= 1 && s[c].openCount <= 0 ==> s'[c].kind == TYPE_DEAD)
      && (s[c].linkCount > 1 || s[c].openCount > 0 ==>
            s'[c] == s[c].(linkCount := if s[c].linkCount > 0 then s[c].linkCount - 1 else 0))
  {
    var p := ParentOf(s, path, user, group).ent.value;
    var name := PathStr.Basename(path);
    var c := ES.Find(s[p].children, name).value;
    var s1 := DetachStore(s, p, name, now).1;
    assert s1 == UnbindStore(s, p, name, now).1;
    assert c != p;
    assert s1[c].openCount == s[c].openCount;
    assert s1[p].children == UnlinkSpec(s, path, user, group, detachHook, destroyHook, now).1[p].children;
  }

  /** A directory entry with more than two counted children is refused, and nothing changes. */
  lemma UnlinkCrowded(s: Store, path: string, user: int, group: int,
                      detachHook: Route.Dispatch, destroyHook: Route.Dispatch, now: int)
    requires WellFormed(s)
    requires |PathStr.Basename(path)| <= NAMEMAX && ParentOf(s, path, user, group).err == 0
    requires ParentOf(s, path, user, group).ent.Some?
    requires var p := ParentOf(s, path, user, group).ent.value;
      p in s && s[p].kind == TYPE_DIR &&
      var c := ES.Find(s[p].children, PathStr.Basename(path));
      c.Some? && c.value in s && c.value != p && s[c.value].kind == TYPE_DIR && NumChildren(s[c.value]) > 2
    ensures UnlinkSpec(s, path, user, group, detachHook, destroyHook, now) == (-ENOTEMPTY, s)
  {
  }

  /**
   * A ".." basename of a non-root parent is found but not removed: unless
   * the grandparent is a directory with more than two counted children
   * (then detach says -ENOTEMPTY), the set refuses the name, detach says
   * -ENOENT, and fskit_unlink still reports 0, leaving ".." in place.
   */
  lemma UnlinkDotDotSucceeds(s: Store, path: string, user: int, group: int,
                             detachHook: Route.Dispatch, destroyHook: Route.Dispatch, now: int)
    requires WellFormed(s)
    requires PathStr.Basename(path) == ".." && ParentOf(s, path, user, group).err == 0
    requires ParentOf(s, path, user, group).ent.Some?
    requires var p := ParentOf(s, path, user, group).ent.value;
      p in s && s[p].kind == TYPE_DIR &&
      var c := ES.Find(s[p].children, "..");
      c.Some? && c.value != p && c.value in s && !(s[c.value].kind == TYPE_DIR && NumChildren(s[c.value]) > 2)
    ensures var p := ParentOf(s, path, user, group).ent.value;
      var (rc, s') := UnlinkSpec(s, path, user, group, detachHook, destroyHook, now);
      rc == 0 && s'[p] == s[p]
  {
    var p := ParentOf(s, path, user, group).ent.value;
    FoundIn(s[p].children, s.Keys, "..");
    assert DetachStore(s, p, "..", now) == (-ENOENT, s);
  }

  /** The detach route cannot change what fskit_unlink does. */
  lemma UnlinkIgnoresDetachRoute(s: Store, path: string, user: int, group: int,
                                 h1: Route.Dispatch, h2: Route.Dispatch, destroyHook: Route.Dispatch, now: int)
    requires WellFormed(s)
    ensures UnlinkSpec(s, path, user, group, h1, destroyHook, now)
            == UnlinkSpec(s, path, user, group, h2, destroyHook, now)
  {
  }

  /** fskit_unlink on the core. */
  method Unlink(core: Core, path: string, user: int, group: int,
                detachHook: Route.Dispatch, destroyHook: Route.Dispatch, now: int) returns (rc: int)
    requires core.Valid()
    modifies core
    ensures core.Valid()
    ensures (rc, core.ents) == UnlinkSpec(old(core.ents), path, user, group, detachHook, destroyHook, now)
  {
    var dir := PathStr.Dirname(path);
    var len := PathStr.BasenameLen(path);
    var name := path[|path| - len..];
    if |name| > NAMEMAX {
      return -ENAMETOOLONG;
    }
    var o := ResolvePath(core, dir, user, group, false);
    ResolveOutcome(core.ents, dir, user, group, false);
    if o.err != 0 {
      return o.err;
    }
    var parent := o.ent.value;
    if core.ents[parent].kind != TYPE_DIR {
      return -ENOTDIR;
    }
    var fent := ES.Find(core.ents[parent].children, name);
    if fent.None? {
      return -ENOENT;
    }
    FoundIn(core.ents[parent].children, core.ents.Keys, name);
    rc := core.Detach(parent, name, now);
    if rc != 0 && rc != -ENOENT {
      return rc;
    }
    rc := Route.RunUser(detachHook);
    if rc < 0 {
      rc := 0;
    }
    var destroyed, _ := core.TryDestroy(fent.value, destroyHook, 0);
    rc := 0;
  }
}
