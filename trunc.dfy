// Truncation (libfskit/trunc.c): fskit_trunc by path, fskit_ftrunc by
// handle, the continuation that applies a successful truncate, and
// fskit_entry_set_size.
module Trunc {
  import opened Opt
  import opened Errno
  import opened Defs
  import PathStr
  import Route
  import opened Entry
  import opened Resolve
  import opened Handle

  /**
   * fskit_trunc_cont: the truncate route reported truncRc; only a 0 makes
   * the entry take the new size and touches its modification and access
   * times. Everything else about the entry stays.
   */
  function TruncCont(n: Node, newSize: int, truncRc: int, now: int): (m: Node)
    ensures truncRc == 0 ==> m.size == newSize && m.mtime == now && m.atime == now
    ensures truncRc == 0 ==> m.(size := n.size, mtime := n.mtime, atime := n.atime) == n
    ensures truncRc != 0 ==> m == n
  {
    if truncRc == 0 then n.(mtime := now, atime := now, size := newSize) else n
  }

  /**
   * The effect of fskit_run_user_trunc on the entry: the continuation runs
   * inside the called route, with that route's status; with no route, it
   * never runs.
   */
  function RunTrunc(n: Node, newSize: int, hook: Route.Dispatch, now: int): (m: Node)
    ensures hook.NoRoute? ==> m == n
    ensures hook.Called? ==> m == TruncCont(n, newSize, hook.cbrc, now)
  {
    match hook
    case NoRoute => n
    case Called(cbrc) => TruncCont(n, newSize, cbrc, now)
  }

  /** fskit_entry_set_size: the size changes and nothing else; always 0. */
  function SetSize(n: Node, size: int): (res: (int, Node))
    ensures res.0 == 0 && res.1.size == size && res.1.(size := n.size) == n
  {
    (0, n.(size := size))
  }

  /** The entry with one more open, as fskit_trunc takes it around the route. */
  function Held(n: Node): (m: Node)
    ensures m.openCount == n.openCount + 1 && m.(openCount := n.openCount) == n
  {
    n.(openCount := n.openCount + 1)
  }

  /** The entry with one open less, as fskit_trunc leaves it after the route. */
  function Released(n: Node): (m: Node)
    ensures m.openCount == n.openCount - 1 && m.(openCount := n.openCount) == n
  {
    n.(openCount := n.openCount - 1)
  }

  /** The continuation leaves the open count alone, so the reference taken around it cancels out. */
  lemma HeldAroundTrunc(n: Node, newSize: int, hook: Route.Dispatch, now: int)
    ensures Released(RunTrunc(Held(n), newSize, hook, now)) == RunTrunc(n, newSize, hook, now)
  {
  }

  /** The inner steps of fskit_trunc once the entry is resolved: it is referenced around the route. */
  function TruncResolved(s: Store, r: Ref, newSize: int, hook: Route.Dispatch,
                         destroyHook: Route.Dispatch, now: int): (res: (int, Store))
    requires WellFormed(s) && r in s
    ensures WellFormed(res.1) && res.1.Keys == s.Keys && res.0 == 0
    ensures s[r].linkCount > 0 || s[r].openCount > 0 ==> res.1 == s[r := RunTrunc(s[r], newSize, hook, now)]
    ensures s[r].linkCount <= 0 && s[r].openCount <= 0 ==> res.1[r].kind == TYPE_DEAD
  {
    var n := s[r];
    var closed := Released(RunTrunc(Held(n), newSize, hook, now));
    HeldAroundTrunc(n, newSize, hook, now);
    assert NodeOk(s.Keys, n);
    UpdateWellFormed(s, r, closed);
    var (destroyed, _, s1) := TryDestroyStore(s[r := closed], r, destroyHook, 0);
    (0, s1)
  }

  /**
   * fskit_trunc: -ENAMETOOLONG for a long basename and the resolution's
   * own error; after that its status is the destroy attempt's, so the
   * truncate route's status is lost.
   */
  function TruncSpec(s: Store, path: string, user: int, group: int, newSize: int,
                     hook: Route.Dispatch, destroyHook: Route.Dispatch, now: int): (res: (int, Store))
    requires WellFormed(s)
    ensures WellFormed(res.1) && res.1.Keys == s.Keys
    ensures res.0 != 0 ==> res.1 == s
    ensures PathStr.BasenameLenOf(path) > NAMEMAX ==> res.0 == -ENAMETOOLONG
    ensures PathStr.BasenameLenOf(path) <= NAMEMAX ==> res.0 == ResolveSpec(s, path, user, group, false).err
  {
    if PathStr.BasenameLenOf(path) > NAMEMAX then (-ENAMETOOLONG, s)
    else
      var o := ResolveSpec(s, path, user, group, false);
      ResolveOutcome(s, path, user, group, false);
      if o.err != 0 then (o.err, s)
      else TruncResolved(s, o.ent.value, newSize, hook, destroyHook, now)
  }

  /**
   * On a resolved entry, fskit_trunc changes that entry only, as the
   * continuation says: the open count comes back to where it was and the
   * entry, still linked, is not destroyed.
   */
  lemma TruncEffect(s: Store, path: string, user: int, group: int, newSize: int,
                    hook: Route.Dispatch, destroyHook: Route.Dispatch, now: int)
    requires WellFormed(s)
    requires PathStr.BasenameLenOf(path) <= NAMEMAX && ResolveSpec(s, path, user, group, false).err == 0
    ensures var r := ResolveSpec(s, path, user, group, false).ent;
      r.Some? && r.value in s &&
      TruncSpec(s, path, user, group, newSize, hook, destroyHook, now) == (0, s[r.value := RunTrunc(s[r.value], newSize, hook, now)])
  {
    ResolveOutcome(s, path, user, group, false);
  }

  /** With no truncate route, fskit_trunc reports 0 and leaves the size (and everything else) alone. */
  lemma TruncNoRoute(s: Store, path: string, user: int, group: int, newSize: int,
                     destroyHook: Route.Dispatch, now: int)
    requires WellFormed(s)
    requires PathStr.BasenameLenOf(path) <= NAMEMAX && ResolveSpec(s, path, user, group, false).err == 0
    ensures TruncSpec(s, path, user, group, newSize, Route.NoRoute, destroyHook, now) == (0, s)
  {
    TruncEffect(s, path, user, group, newSize, Route.NoRoute, destroyHook, now);
    var r := ResolveSpec(s, path, user, group, false).ent.value;
    assert s[r := s[r]] == s;
  }

  /**
   * The status defect of fskit_trunc: a route that fails (any status but
   * 0) leaves the size alone, yet fskit_trunc still reports success.
   */
  lemma TruncDropsRouteStatus(s: Store, path: string, user: int, group: int, newSize: int,
                              cbrc: int, destroyHook: Route.Dispatch, now: int)
    requires WellFormed(s) && cbrc != 0
    requires PathStr.BasenameLenOf(path) <= NAMEMAX && ResolveSpec(s, path, user, group, false).err == 0
    ensures Route.RunUser(Route.Called(cbrc)) == cbrc
    ensures TruncSpec(s, path, user, group, newSize, Route.Called(cbrc), destroyHook, now) == (0, s)
  {
    TruncEffect(s, path, user, group, newSize, Route.Called(cbrc), destroyHook, now);
    var r := ResolveSpec(s, path, user, group, false).ent.value;
    assert s[r := s[r]] == s;
  }

  /**
   * fskit_ftrunc: -EBADF unless the handle was opened for writing;
   * otherwise the truncate route's own status, after its continuation has
   * acted on the handle's entry.
   */
  function FTruncSpec(s: Store, fh: FileHandle, newSize: int, hook: Route.Dispatch, now: int): (res: (int, Store))
    requires WellFormed(s) && fh.ent in s
    ensures WellFormed(res.1) && res.1.Keys == s.Keys
    ensures fh.flags & (O_RDWR | O_WRONLY) == 0 ==> res == (-EBADF, s)
    ensures fh.flags & (O_RDWR | O_WRONLY) != 0 ==>
              res == (Route.RunUser(hook), s[fh.ent := RunTrunc(s[fh.ent], newSize, hook, now)])
  {
    if fh.flags & (O_RDWR | O_WRONLY) == 0 then (-EBADF, s)
    else
      var n := s[fh.ent];
      assert NodeOk(s.Keys, n);
      UpdateWellFormed(s, fh.ent, RunTrunc(n, newSize, hook, now));
      (Route.RunUser(hook), s[fh.ent := RunTrunc(n, newSize, hook, now)])
  }

  /** A handle opened read-only cannot truncate. */
  lemma FTruncReadOnly(s: Store, fh: FileHandle, newSize: int, hook: Route.Dispatch, now: int)
    requires WellFormed(s) && fh.ent in s && fh.flags == O_RDONLY
    ensures FTruncSpec(s, fh, newSize, hook, now) == (-EBADF, s)
  {
  }

  /** fskit_trunc on the core. */
  method TruncPath(core: Core, path: string, user: int, group: int, newSize: int,
                   hook: Route.Dispatch, destroyHook: Route.Dispatch, now: int) returns (rc: int)
    requires core.Valid()
    modifies core
    ensures core.Valid()
    ensures (rc, core.ents) == TruncSpec(old(core.ents), path, user, group, newSize, hook, destroyHook, now)
  {
    var len := PathStr.BasenameLen(path);
    if len > NAMEMAX {
      return -ENAMETOOLONG;
    }
    var o := ResolvePath(core, path, user, group, false);
    ResolveOutcome(core.ents, path, user, group, false);
    if o.err != 0 {
      return o.err;
    }
    rc := TruncEntry(core, o.ent.value, newSize, hook, destroyHook, now);
  }

  /** The steps of fskit_trunc on a resolved entry: reference it, run the route, release it, try to destroy it. */
  method TruncEntry(core: Core, r: Ref, newSize: int, hook: Route.Dispatch,
                    destroyHook: Route.Dispatch, now: int) returns (rc: int)
    requires core.Valid() && r in core.ents
    modifies core
    ensures core.Valid()
    ensures (rc, core.ents) == TruncResolved(old(core.ents), r, newSize, hook, destroyHook, now)
  {
    ghost var s0 := core.ents;
    rc := core.RefEntry(r);
    rc := Route.RunUser(hook);
    var closed := Released(RunTrunc(core.ents[r], newSize, hook, now));
    assert core.ents[r] == Held(s0[r]);
    HeldAroundTrunc(s0[r], newSize, hook, now);
    assert NodeOk(s0.Keys, s0[r]);
    UpdateWellFormed(s0, r, closed);
    UpdateOver(s0, r, core.ents[r], closed);
    core.ents := core.ents[r := closed];
    var destroyed, _ := core.TryDestroy(r, destroyHook, 0);
    rc := destroyed;
    if rc > 0 {
      rc := 0;
    }
  }

  /** fskit_ftrunc on the core. */
  method FTrunc(core: Core, fh: FileHandle, newSize: int, hook: Route.Dispatch, now: int) returns (rc: int)
    requires core.Valid() && fh.ent in core.ents
    modifies core
    ensures core.Valid()
    ensures (rc, core.ents) == FTruncSpec(old(core.ents), fh, newSize, hook, now)
  {
    if fh.flags & (O_RDWR | O_WRONLY) == 0 {
      return -EBADF;
    }
    var n := RunTrunc(core.ents[fh.ent], newSize, hook, now);
    assert NodeOk(core.ents.Keys, core.ents[fh.ent]);
    UpdateWellFormed(core.ents, fh.ent, n);
    core.ents := core.ents[fh.ent := n];
    rc := Route.RunUser(hook);
  }
}
