// fskit_rename and its helpers (libfskit/rename.c).
module Rename {
  import opened Opt
  import opened Errno
  import opened Defs
  import PathStr
  import ES = EntrySet
  import A = Assoc
  import Route
  import opened Entry
  import opened Resolve
  import Strs

  /**
   * Two readings of the source where it departs from its own comments:
   * the code as written, and the behaviour its comments describe.
   */
  datatype Reading = AsWritten | Intended

  /**
   * The parent directories fskit_rename locks: one common parent when both
   * paths have the same dirname at the same depth, otherwise the old and
   * the new parent, with the file ids collected on the way to the new one.
   */
  datatype Parents = Common(dir: Ref) | Apart(oldDir: Ref, newDir: Ref, ids: seq<nat>)

  function OldDir(p: Parents): Ref
  {
    if p.Common? then p.dir else p.oldDir
  }

  function NewDir(p: Parents): Ref
  {
    if p.Common? then p.dir else p.newDir
  }

  /**
   * fskit_inode_set_contains. As written (rename.c:51-65) the lookup key's
   * file_id is never filled in, and the accumulator (rename.c:88-114)
   * never stores an id in the members it adds, so every member has id 0
   * and the lookup succeeds for any non-empty set. Intended: membership.
   */
  function Contains(reading: Reading, ids: seq<nat>, fileId: nat): (b: bool)
    ensures reading == Intended ==> (b <==> fileId in ids)
    ensures reading == AsWritten ==> (b <==> |ids| > 0)
  {
    match reading
    case AsWritten => |ids| > 0
    case Intended => fileId in ids
  }

  /** The status of the two resolutions: the new parent's error first, then the old one's. */
  function Combine(n: Outcome, o: Outcome): (r: (int, Option<Parents>))
    ensures r.0 == 0 <==> r.1.Some?
    ensures r.0 != 0 ==> r.0 == (if n.err != 0 then n.err else if o.err != 0 then o.err else -ENOENT)
    ensures r.1.Some? ==> n.ent.Some? && o.ent.Some? && r.1.value == Apart(o.ent.value, n.ent.value, n.ids)
  {
    if n.err != 0 then (n.err, None)
    else if o.err != 0 then (o.err, None)
    else if n.ent.None? || o.ent.None? then (-ENOENT, None)
    else (0, Some(Apart(o.ent.value, n.ent.value, n.ids)))
  }

  /**
   * The resolution phase of fskit_rename (rename.c:250-302): the deeper
   * path's parent is resolved first; when the old path is deeper, the new
   * parent is resolved only if the old one was found. Parents at the same
   * depth with the same dirname are resolved once, as the common parent.
   * The new parent is resolved with the file-id accumulator.
   */
  function ResolveParents(s: Store, oldPath: string, newPath: string, user: int, group: int): (r: (int, Option<Parents>))
    requires WellFormed(s)
    ensures r.0 == 0 <==> r.1.Some?
    ensures r.0 in {0, -ENOENT, -ENOTDIR, -EACCES, -EINVAL}
    ensures r.1.Some? ==> OldDir(r.1.value) in s && NewDir(r.1.value) in s
    ensures r.1.Some? && r.1.value.Common? <==>
              r.1.Some? && PathStr.DepthOf(oldPath) == PathStr.DepthOf(newPath)
              && PathStr.DirnameOf(oldPath) == PathStr.DirnameOf(newPath)
    ensures r.1.Some? && r.1.value.Apart? ==>
              r.1.value.ids == [s[ROOT].fileId] + ChainIds(s, ROOT, Names(PathStr.DirnameOf(newPath)))
    ensures r.1.Some? ==>
              Some(OldDir(r.1.value)) == LookupPath(s, ROOT, Names(PathStr.DirnameOf(oldPath)))
              && Some(NewDir(r.1.value)) == LookupPath(s, ROOT, Names(PathStr.DirnameOf(newPath)))
  {
    var od, nd := PathStr.DirnameOf(oldPath), PathStr.DirnameOf(newPath);
    var dOld, dNew := PathStr.DepthOf(oldPath), PathStr.DepthOf(newPath);
    ResolveOutcome(s, od, user, group, false);
    ResolveOutcome(s, nd, user, group, true);
    if dOld > dNew then
      var o := ResolveSpec(s, od, user, group, false);
      var n := if o.err == 0 then ResolveSpec(s, nd, user, group, true) else Outcome(0, None, []);
      Combine(n, o)
    else if dOld < dNew || od != nd then
      Combine(ResolveSpec(s, nd, user, group, true), ResolveSpec(s, od, user, group, false))
    else
      var c := ResolveSpec(s, od, user, group, false);
      if c.err != 0 then (c.err, None) else (0, Some(Common(c.ent.value)))
  }

  /** A parent rename may edit: searchable and writeable by the caller. */
  predicate MayEdit(n: Node, user: int, group: int)
  {
    IsDirSearchable(n.mode, n.owner, n.group, user, group) && IsWriteable(n.mode, n.owner, n.group, user, group)
  }

  /**
   * The type and emptiness tests of rename.c:362-381 pass: there is no
   * destination, or it has the moved entry's type and is not a directory
   * with a counted child.
   */
  predicate EntriesAgree(s: Store, oldEnt: Ref, newEnt: Option<Ref>)
    requires oldEnt in s && (newEnt.Some? ==> newEnt.value in s)
  {
    newEnt.None? ||
    (s[newEnt.value].kind == s[oldEnt].kind && !(s[newEnt.value].kind == TYPE_DIR && s[newEnt.value].numChildren > 0))
  }

  /**
   * The moved entry's file id is among those on the way to a separately
   * resolved new parent: the new parent is the moved entry or lies below it.
   */
  predicate OnNewPath(s: Store, p: Parents, oldEnt: Ref)
    requires oldEnt in s
  {
    p.Apart? && s[oldEnt].fileId in p.ids
  }

  /**
   * The checks on the two entries (rename.c:362-395): a destination of the
   * other type is -EISDIR (it is a directory) or -ENOTDIR; a directory
   * destination with any counted child is -ENOTEMPTY, whatever the type
   * test said; once these pass, a loop is -EINVAL. As written
   * (rename.c:386-393), the loop test runs only when the destination
   * exists and looks for the destination's id, through the set lookup of
   * Contains. Intended: the moved entry's id is looked for as well, with
   * or without a destination, so that no directory is moved into itself
   * or below itself.
   */
  function Vet(reading: Reading, s: Store, p: Parents, oldEnt: Ref, newEnt: Option<Ref>): (e: int)
    requires oldEnt in s && (newEnt.Some? ==> newEnt.value in s)
    ensures e in {0, -EISDIR, -ENOTDIR, -ENOTEMPTY, -EINVAL}
    ensures newEnt.Some? && s[newEnt.value].kind == TYPE_DIR && s[newEnt.value].numChildren > 0 ==> e == -ENOTEMPTY
    ensures newEnt.Some? && s[newEnt.value].kind != s[oldEnt].kind
            && !(s[newEnt.value].kind == TYPE_DIR && s[newEnt.value].numChildren > 0) ==>
              e == (if s[newEnt.value].kind == TYPE_DIR then -EISDIR else -ENOTDIR)
    ensures e == 0 ==> EntriesAgree(s, oldEnt, newEnt)
    ensures EntriesAgree(s, oldEnt, newEnt) ==> e == 0 || e == -EINVAL
    ensures reading == AsWritten && EntriesAgree(s, oldEnt, newEnt) ==>
              (e == -EINVAL <==> p.Apart? && newEnt.Some? && |p.ids| > 0)
    ensures reading == Intended && EntriesAgree(s, oldEnt, newEnt) ==>
              (e == -EINVAL <==> OnNewPath(s, p, oldEnt) || (p.Apart? && newEnt.Some? && s[newEnt.value].fileId in p.ids))
    ensures reading == AsWritten && newEnt.None? ==> e == 0
    ensures reading == Intended && OnNewPath(s, p, oldEnt) ==> e != 0
  {
    if newEnt.None? then
      if reading == Intended && p.Apart? && Contains(reading, p.ids, s[oldEnt].fileId) then -EINVAL else 0
    else
      var n := s[newEnt.value];
      var e1 := if n.kind != s[oldEnt].kind then (if n.kind == TYPE_DIR then -EISDIR else -ENOTDIR) else 0;
      var e2 := if n.kind == TYPE_DIR && n.numChildren > 0 then -ENOTEMPTY else e1;
      var loop := p.Apart? && (Contains(reading, p.ids, n.fileId)
                               || (reading == Intended && Contains(reading, p.ids, s[oldEnt].fileId)));
      if e2 == 0 && loop then -EINVAL else e2
  }

  /**
   * The end of fskit_rename's commit (rename.c:486-509): the replaced entry
   * is flagged as deleted through a rename and, if nothing references it
   * any more, destroyed (running its destroy route, whose status is
   * dropped); otherwise the flag is cleared again.
   */
  function Retire(s: Store, r: Ref, hook: Route.Dispatch): (res: Store)
    requires WellFormed(s) && r in s
    ensures WellFormed(res) && res.Keys == s.Keys
  {
    var n := s[r].(deletionThroughRename := true);
    UpdateWellFormed(s, r, n);
    var (d, _, s2) := TryDestroyStore(s[r := n], r, hook, 0);
    if d == 1 then s2
    else
      UpdateWellFormed(s2, r, s2[r].(deletionThroughRename := false));
      s2[r := s2[r].(deletionThroughRename := false)]
  }

  /** Retire on an unreferenced entry destroys it, with the flag set and one more open. */
  lemma RetireDestroys(s: Store, r: Ref, hook: Route.Dispatch)
    requires WellFormed(s) && r in s && s[r].linkCount <= 0 && s[r].openCount <= 0
    ensures Retire(s, r, hook) == s[r := Destroy(s[r].(deletionThroughRename := true, openCount := 1))]
  {
    var n := s[r].(deletionThroughRename := true);
    UpdateWellFormed(s, r, n);
    var s1 := s[r := n];
    assert s1[r] == n;
    var x := Destroy(n.(openCount := 1));
    var t := TryDestroyStore(s1, r, hook, 0);
    assert t.0 == 1 && t.2 == s1[r := x];
    UpdateOver(s, r, n, x);
  }

  /** Retire on an entry still referenced changes nothing but the flag, which ends up cleared. */
  lemma RetireKeeps(s: Store, r: Ref, hook: Route.Dispatch)
    requires WellFormed(s) && r in s && !(s[r].linkCount <= 0 && s[r].openCount <= 0)
    ensures Retire(s, r, hook) == s[r := s[r].(deletionThroughRename := false)]
  {
    var n := s[r].(deletionThroughRename := true);
    UpdateWellFormed(s, r, n);
    var s1 := s[r := n];
    assert s1[r] == n;
    var t := TryDestroyStore(s1, r, hook, 0);
    assert t.0 == 0 && t.2 == s1;
    var y := s[r].(deletionThroughRename := false);
    assert n.(deletionThroughRename := false) == y;
    UpdateOver(s, r, n, y);
  }

  /** Retire changes no entry but the one retired. */
  lemma RetireFrame(s: Store, r: Ref, hook: Route.Dispatch)
    requires WellFormed(s) && r in s
    ensures forall q :: q in s && q != r ==> Retire(s, r, hook)[q] == s[q]
  {
    if s[r].linkCount <= 0 && s[r].openCount <= 0 {
      RetireDestroys(s, r, hook);
    } else {
      RetireKeeps(s, r, hook);
    }
  }

  /**
   * The old name's removal at commit. As written, rename.c:453 and 466 call
   * fskit_entry_detach_lowlevel and ignore its status, so a directory with
   * more than two children keeps its old name. Intended: the name is
   * unbound whatever the directory holds.
   */
  function DetachOld(reading: Reading, s: Store, dir: Ref, name: string, now: int): (res: Store)
    requires WellFormed(s) && dir in s
    ensures WellFormed(res) && res.Keys == s.Keys
  {
    match reading
    case AsWritten => DetachStore(s, dir, name, now).1
    case Intended => UnbindStore(s, dir, name, now).1
  }

  /** The unlinking half of the commit: the old name, then the destination's name if it exists. */
  function Clear(reading: Reading, s: Store, src: Ref, dst: Ref, oldBase: string, newBase: string,
                 newEnt: Option<Ref>, now: int): (res: Store)
    requires WellFormed(s) && src in s && dst in s
    ensures WellFormed(res) && res.Keys == s.Keys
  {
    var s1 := DetachOld(reading, s, src, oldBase, now);
    if newEnt.Some? then DetachStore(s1, dst, newBase, now).1 else s1
  }

  /** The linking half of the commit: the entry under its new name, then the replaced entry's retirement. */
  function Install(s: Store, dst: Ref, oldEnt: Ref, newBase: string, newEnt: Option<Ref>,
                   destroyHook: Route.Dispatch, now: int): (res: Store)
    requires WellFormed(s) && dst in s && oldEnt in s && (newEnt.Some? ==> newEnt.value in s)
    ensures WellFormed(res) && res.Keys == s.Keys
  {
    var s3 := AttachStore(s, dst, oldEnt, newBase, now);
    if newEnt.Some? then Retire(s3, newEnt.value, destroyHook) else s3
  }

  /**
   * The commit (rename.c:445-509): unbind the old name, detach the
   * destination's name if it exists (statuses ignored), attach the entry
   * under the new name in the destination parent, and retire the replaced
   * entry.
   */
  function Commit(reading: Reading, s: Store, p: Parents, oldBase: string, newBase: string,
                  oldEnt: Ref, newEnt: Option<Ref>, destroyHook: Route.Dispatch, now: int): (res: Store)
    requires WellFormed(s) && OldDir(p) in s && NewDir(p) in s && oldEnt in s && (newEnt.Some? ==> newEnt.value in s)
    ensures WellFormed(res) && res.Keys == s.Keys
  {
    Install(Clear(reading, s, OldDir(p), NewDir(p), oldBase, newBase, newEnt, now), NewDir(p), oldEnt, newBase, newEnt, destroyHook, now)
  }

  /** A directory fskit_entry_detach_lowlevel refuses to unlink: more than two children. */
  predicate Crowded(n: Node)
  {
    n.kind == TYPE_DIR && NumChildren(n) > 2
  }

  /** The first step of the commit: the old name is unbound, unless the as-written detach refuses it. */
  lemma DetachOldFacts(reading: Reading, s: Store, src: Ref, oldBase: string, oldEnt: Ref, now: int)
    requires WellFormed(s) && src in s && ES.Find(s[src].children, oldBase) == Some(oldEnt) && oldEnt != src
    requires oldBase != "." && oldBase != ".."
    ensures var s1 := DetachOld(reading, s, src, oldBase, now);
      && (forall n :: n != oldBase ==> ES.Find(s1[src].children, n) == ES.Find(s[src].children, n))
      && (forall q :: q in s && q != src && q != oldEnt ==> s1[q] == s[q])
      && (reading == AsWritten && Crowded(s[oldEnt]) ==> s1 == s)
      && (reading == Intended || !Crowded(s[oldEnt]) ==> ES.Find(s1[src].children, oldBase) == None)
  {
    FoundIn(s[src].children, s.Keys, oldBase);
    assert Unbindable(s, src, oldBase);
    if reading == AsWritten && Crowded(s[oldEnt]) {
      assert !Detachable(s, src, oldBase);
    } else if reading == AsWritten {
      assert Detachable(s, src, oldBase);
    }
  }

  /** The second step: the replaced entry's name is unbound. */
  lemma DetachNewFacts(s: Store, dst: Ref, newBase: string, e: Ref, now: int)
    requires WellFormed(s) && dst in s && ES.Find(s[dst].children, newBase) == Some(e) && e != dst
    requires e in s && !(s[e].kind == TYPE_DIR && s[e].numChildren > 0)
    requires newBase != "." && newBase != ".."
    ensures var s2 := DetachStore(s, dst, newBase, now).1;
      && ES.Find(s2[dst].children, newBase) == None
      && (forall n :: n != newBase ==> ES.Find(s2[dst].children, n) == ES.Find(s[dst].children, n))
      && (forall q :: q in s && q != dst && q != e ==> s2[q] == s[q])
  {
    assert Detachable(s, dst, newBase);
  }

  /** The unlinking half: the new name is free, the old one gone unless refused, the others kept. */
  lemma ClearFacts(reading: Reading, s: Store, src: Ref, dst: Ref, oldBase: string, newBase: string,
                   oldEnt: Ref, newEnt: Option<Ref>, now: int)
    requires WellFormed(s) && src in s && dst in s && oldEnt in s
    requires ES.Find(s[src].children, oldBase) == Some(oldEnt)
    requires newEnt == ES.Find(s[dst].children, newBase) && newEnt != Some(oldEnt)
    requires oldEnt != src && oldEnt != dst
    requires newEnt.Some? ==> newEnt.value in s && newEnt.value != src && newEnt.value != dst
    requires newEnt.Some? ==> !(s[newEnt.value].kind == TYPE_DIR && s[newEnt.value].numChildren > 0)
    requires oldBase != "." && oldBase != ".." && newBase != "." && newBase != ".."
    ensures var s2 := Clear(reading, s, src, dst, oldBase, newBase, newEnt, now);
      && ES.Find(s2[dst].children, newBase) == None
      && (forall n :: n != oldBase && n != newBase ==>
            ES.Find(s2[dst].children, n) == ES.Find(s[dst].children, n)
            && ES.Find(s2[src].children, n) == ES.Find(s[src].children, n))
      && (reading == Intended || !Crowded(s[oldEnt]) ==> ES.Find(s2[src].children, oldBase) == None)
      && (reading == AsWritten && Crowded(s[oldEnt]) ==> ES.Find(s2[src].children, oldBase) == Some(oldEnt))
  {
    var s1 := DetachOld(reading, s, src, oldBase, now);
    DetachOldFacts(reading, s, src, oldBase, oldEnt, now);
    assert ES.Find(s1[dst].children, newBase) == newEnt by {
      if src == dst {
        assert newBase != oldBase;
      } else {
        assert s1[dst] == s[dst];
      }
    }
    if newEnt.Some? {
      assert s1[newEnt.value] == s[newEnt.value];
      DetachNewFacts(s1, dst, newBase, newEnt.value, now);
      var s2 := DetachStore(s1, dst, newBase, now).1;
      assert src != dst ==> s2[src] == s1[src];
      assert src == dst ==> oldBase != newBase;
    }
  }

  /** The linking half: the new name finds the moved entry and the destination's other names are kept. */
  lemma InstallFacts(s: Store, src: Ref, dst: Ref, oldEnt: Ref, newBase: string, newEnt: Option<Ref>,
                     destroyHook: Route.Dispatch, now: int)
    requires WellFormed(s) && src in s && dst in s && oldEnt in s && oldEnt != dst && oldEnt != src
    requires newEnt.Some? ==> newEnt.value in s && newEnt.value != src && newEnt.value != dst
    ensures var r := Install(s, dst, oldEnt, newBase, newEnt, destroyHook, now);
      && ES.Find(r[dst].children, newBase) == Some(oldEnt)
      && (forall n :: n != newBase ==> ES.Find(r[dst].children, n) == ES.Find(s[dst].children, n))
      && (src != dst ==> r[src] == s[src])
  {
    var s3 := AttachStore(s, dst, oldEnt, newBase, now);
    AttachSpec(s, dst, oldEnt, newBase, now);
    if newEnt.Some? {
      RetireFrame(s3, newEnt.value, destroyHook);
    }
    var r := if newEnt.Some? then Retire(s3, newEnt.value, destroyHook) else s3;
    assert r[dst] == s3[dst] && r[src] == s3[src];
  }

  /**
   * What the commit does to the two parents' names, when the moved and the
   * replaced entries are distinct from both parents: the new name finds
   * the moved entry, every other name but the old one is unchanged, and
   * the old name is gone, except under the as-written reading for a
   * crowded directory, whose old name survives the rename.
   */
  lemma CommitFacts(reading: Reading, s: Store, p: Parents, oldBase: string, newBase: string,
                    oldEnt: Ref, newEnt: Option<Ref>, destroyHook: Route.Dispatch, now: int)
    requires WellFormed(s) && OldDir(p) in s && NewDir(p) in s && oldEnt in s
    requires ES.Find(s[OldDir(p)].children, oldBase) == Some(oldEnt)
    requires newEnt == ES.Find(s[NewDir(p)].children, newBase) && newEnt != Some(oldEnt)
    requires oldEnt != OldDir(p) && oldEnt != NewDir(p)
    requires newEnt.Some? ==> newEnt.value in s && newEnt.value != OldDir(p) && newEnt.value != NewDir(p)
    requires newEnt.Some? ==> !(s[newEnt.value].kind == TYPE_DIR && s[newEnt.value].numChildren > 0)
    requires oldBase != "." && oldBase != ".." && newBase != "." && newBase != ".."
    ensures var r := Commit(reading, s, p, oldBase, newBase, oldEnt, newEnt, destroyHook, now);
      && ES.Find(r[NewDir(p)].children, newBase) == Some(oldEnt)
      && (forall n :: n != oldBase && n != newBase ==>
            ES.Find(r[NewDir(p)].children, n) == ES.Find(s[NewDir(p)].children, n)
            && ES.Find(r[OldDir(p)].children, n) == ES.Find(s[OldDir(p)].children, n))
      && (reading == Intended || !Crowded(s[oldEnt]) ==> ES.Find(r[OldDir(p)].children, oldBase) == None)
      && (reading == AsWritten && Crowded(s[oldEnt]) ==> ES.Find(r[OldDir(p)].children, oldBase) == Some(oldEnt))
  {
    var src, dst := OldDir(p), NewDir(p);
    var s2 := Clear(reading, s, src, dst, oldBase, newBase, newEnt, now);
    ClearFacts(reading, s, src, dst, oldBase, newBase, oldEnt, newEnt, now);
    assert src in s2 && dst in s2 && oldEnt in s2 && (newEnt.Some? ==> newEnt.value in s2);
    InstallFacts(s2, src, dst, oldEnt, newBase, newEnt, destroyHook, now);
    assert src == dst ==> oldBase != newBase;
  }

  /** What the checks of fskit_rename settle before the rename route runs. */
  datatype Plan = Plan(parents: Parents, oldBase: string, newBase: string, oldEnt: Ref, newEnt: Option<Ref>)

  /** A plan names two parents of the store, the entry found under the old name, and the destination. */
  ghost predicate Located(s: Store, pl: Plan)
  {
    && OldDir(pl.parents) in s && NewDir(pl.parents) in s && pl.oldEnt in s
    && ES.Find(s[OldDir(pl.parents)].children, pl.oldBase) == Some(pl.oldEnt)
    && pl.newEnt == ES.Find(s[NewDir(pl.parents)].children, pl.newBase)
    && pl.newEnt != Some(pl.oldEnt)
    && (pl.newEnt.Some? ==> pl.newEnt.value in s)
  }

  /** A located plan whose destination, if any, passed the type and emptiness tests. */
  ghost predicate PlanOk(s: Store, pl: Plan)
  {
    && Located(s, pl)
    && (pl.newEnt.Some? ==> && s[pl.newEnt.value].kind == s[pl.oldEnt].kind
                            && !(s[pl.newEnt.value].kind == TYPE_DIR && s[pl.newEnt.value].numChildren > 0))
  }

  /**
   * The checks of fskit_rename before the entry tests (rename.c:234-360).
   * A basename longer than NAMEMAX is -ENAMETOOLONG; resolution errors
   * come next; a parent the caller may not search and write is -EACCES;
   * a missing source is -ENOENT; renaming an entry onto itself is 0 with
   * nothing left to do. Otherwise the two entries come back as a plan.
   */
  function Locate(s: Store, oldPath: string, newPath: string, user: int, group: int): (r: (int, Option<Plan>))
    requires WellFormed(s)
    ensures r.0 in {0, -ENAMETOOLONG, -ENOENT, -ENOTDIR, -EACCES, -EINVAL}
    ensures r.0 != 0 ==> r.1.None?
    ensures PathStr.BasenameLenOf(oldPath) > NAMEMAX || PathStr.BasenameLenOf(newPath) > NAMEMAX ==> r.0 == -ENAMETOOLONG
    ensures r.1.Some? ==> Located(s, r.1.value)
    ensures r.1.Some? ==> && Some(r.1.value.parents) == ResolveParents(s, oldPath, newPath, user, group).1
                          && r.1.value.oldBase == PathStr.Basename(oldPath)
                          && r.1.value.newBase == PathStr.Basename(newPath)
                          && MayEdit(s[OldDir(r.1.value.parents)], user, group)
                          && MayEdit(s[NewDir(r.1.value.parents)], user, group)
    ensures PathStr.BasenameLenOf(oldPath) <= NAMEMAX && PathStr.BasenameLenOf(newPath) <= NAMEMAX ==>
              var (perr, parents) := ResolveParents(s, oldPath, newPath, user, group);
              && (perr != 0 ==> r == (perr, None))
              && (parents.Some? ==>
                    var p := parents.value;
                    var oldEnt := ES.Find(s[OldDir(p)].children, PathStr.Basename(oldPath));
                    var newEnt := ES.Find(s[NewDir(p)].children, PathStr.Basename(newPath));
                    && (!(MayEdit(s[OldDir(p)], user, group) && MayEdit(s[NewDir(p)], user, group)) ==> r == (-EACCES, None))
                    && (MayEdit(s[OldDir(p)], user, group) && MayEdit(s[NewDir(p)], user, group) ==>
                          && (oldEnt.None? ==> r == (-ENOENT, None))
                          && (oldEnt.Some? && oldEnt == newEnt ==> r == (0, None))
                          && (oldEnt.Some? && oldEnt != newEnt ==> r.0 == 0 && r.1.Some?)))
  {
    if PathStr.BasenameLenOf(oldPath) > NAMEMAX || PathStr.BasenameLenOf(newPath) > NAMEMAX then (-ENAMETOOLONG, None)
    else
      var (perr, parents) := ResolveParents(s, oldPath, newPath, user, group);
      if perr != 0 then (perr, None)
      else
        var p := parents.value;
        if !MayEdit(s[OldDir(p)], user, group) || !MayEdit(s[NewDir(p)], user, group) then (-EACCES, None)
        else
          var oldBase, newBase := PathStr.Basename(oldPath), PathStr.Basename(newPath);
          var newEnt := ES.Find(s[NewDir(p)].children, newBase);
          var oldEnt := ES.Find(s[OldDir(p)].children, oldBase);
          if oldEnt.None? then (-ENOENT, None)
          else if oldEnt == newEnt then (0, None)
          else
            FoundIn(s[OldDir(p)].children, s.Keys, oldBase);
            assert newEnt.Some? ==> newEnt.value in s by {
              if newEnt.Some? { FoundIn(s[NewDir(p)].children, s.Keys, newBase); }
            }
            (0, Some(Plan(p, oldBase, newBase, oldEnt.value, newEnt)))
  }

  /**
   * All the checks of fskit_rename up to the rename route (rename.c:234-395):
   * those of Locate, then the entry tests of Vet. Once Locate has found
   * the two entries the status is Vet's, and a plan comes back exactly
   * when all of them pass and there is something to move.
   */
  function Prepare(reading: Reading, s: Store, oldPath: string, newPath: string, user: int, group: int): (r: (int, Option<Plan>))
    requires WellFormed(s)
    ensures r.0 in {0, -ENAMETOOLONG, -ENOENT, -ENOTDIR, -EACCES, -EINVAL, -EISDIR, -ENOTEMPTY}
    ensures r.0 != 0 ==> r.1.None?
    ensures r.1.Some? ==> PlanOk(s, r.1.value) && r.1 == Locate(s, oldPath, newPath, user, group).1
    ensures Locate(s, oldPath, newPath, user, group).1.None? ==> r == Locate(s, oldPath, newPath, user, group)
    ensures var c := Locate(s, oldPath, newPath, user, group).1;
      c.Some? ==> && r.0 == Vet(reading, s, c.value.parents, c.value.oldEnt, c.value.newEnt)
                  && (r.1.Some? <==> Vet(reading, s, c.value.parents, c.value.oldEnt, c.value.newEnt) == 0)
  {
    var (e, c) := Locate(s, oldPath, newPath, user, group);
    if c.None? then (e, None)
    else
      var pl := c.value;
      var v := Vet(reading, s, pl.parents, pl.oldEnt, pl.newEnt);
      if v != 0 then (v, None) else (0, c)
  }

  /** The plan Locate finds moves an entry whose file id is on the way to the new parent. */
  predicate MovesOntoOwnPath(s: Store, oldPath: string, newPath: string, user: int, group: int)
    requires WellFormed(s)
  {
    var pl := Locate(s, oldPath, newPath, user, group).1;
    pl.Some? && OnNewPath(s, pl.value.parents, pl.value.oldEnt)
  }

  /**
   * fskit_rename as a function of the store, under a reading: the checks
   * of Prepare, then the rename route, whose failure is returned; only a
   * call that reaches the commit changes the store, and it returns 0.
   */
  function RenameWith(reading: Reading, s: Store, oldPath: string, newPath: string, user: int, group: int,
                      renameHook: Route.Dispatch, destroyHook: Route.Dispatch, now: int): (res: (int, Store))
    requires WellFormed(s)
    ensures WellFormed(res.1) && res.1.Keys == s.Keys
    ensures res.0 != 0 ==> res.1 == s
    ensures res.0 == Prepare(reading, s, oldPath, newPath, user, group).0 || res.0 == Route.RunUser(renameHook)
    ensures Prepare(reading, s, oldPath, newPath, user, group).1.None? ==> res == (Prepare(reading, s, oldPath, newPath, user, group).0, s)
  {
    var (e, plan) := Prepare(reading, s, oldPath, newPath, user, group);
    if plan.None? then (e, s)
    else
      var h := Route.RunUser(renameHook);
      if h != 0 then (h, s)
      else
        var pl := plan.value;
        (0, Commit(reading, s, pl.parents, pl.oldBase, pl.newBase, pl.oldEnt, pl.newEnt, destroyHook, now))
  }

  /** fskit_rename as its comments describe it. */
  function RenameSpec(s: Store, oldPath: string, newPath: string, user: int, group: int,
                      renameHook: Route.Dispatch, destroyHook: Route.Dispatch, now: int): (res: (int, Store))
    requires WellFormed(s)
  {
    RenameWith(Intended, s, oldPath, newPath, user, group, renameHook, destroyHook, now)
  }

  /** fskit_rename as written. */
  function RenameAsWritten(s: Store, oldPath: string, newPath: string, user: int, group: int,
                           renameHook: Route.Dispatch, destroyHook: Route.Dispatch, now: int): (res: (int, Store))
    requires WellFormed(s)
  {
    RenameWith(AsWritten, s, oldPath, newPath, user, group, renameHook, destroyHook, now)
  }

  /** A plan whose moved and replaced entries are neither parent, and whose names are not "." or "..". */
  predicate Plain(pl: Plan)
  {
    && pl.oldEnt != OldDir(pl.parents) && pl.oldEnt != NewDir(pl.parents)
    && (pl.newEnt.Some? ==> pl.newEnt.value != OldDir(pl.parents) && pl.newEnt.value != NewDir(pl.parents))
    && pl.oldBase != "." && pl.oldBase != ".." && pl.newBase != "." && pl.newBase != ".."
  }

  /**
   * A rename that passes its checks and its route moves the entry: the
   * new name in the new parent finds the moved entry, the old name in the
   * old parent finds nothing, and the two parents' other names are as
   * they were.
   */
  lemma RenameMovesEntry(s: Store, oldPath: string, newPath: string, user: int, group: int,
                         renameHook: Route.Dispatch, destroyHook: Route.Dispatch, now: int)
    requires WellFormed(s)
    ensures var (e, plan) := Prepare(Intended, s, oldPath, newPath, user, group);
      plan.Some? && Plain(plan.value) && Route.RunUser(renameHook) == 0 ==>
        var pl := plan.value;
        var (rc, r) := RenameSpec(s, oldPath, newPath, user, group, renameHook, destroyHook, now);
        && rc == 0
        && ES.Find(r[NewDir(pl.parents)].children, pl.newBase) == Some(pl.oldEnt)
        && ES.Find(r[OldDir(pl.parents)].children, pl.oldBase) == None
        && (forall n :: n != pl.oldBase && n != pl.newBase ==>
              ES.Find(r[NewDir(pl.parents)].children, n) == ES.Find(s[NewDir(pl.parents)].children, n)
              && ES.Find(r[OldDir(pl.parents)].children, n) == ES.Find(s[OldDir(pl.parents)].children, n))
  {
    var (e, plan) := Prepare(Intended, s, oldPath, newPath, user, group);
    if plan.Some? && Plain(plan.value) && Route.RunUser(renameHook) == 0 {
      var pl := plan.value;
      RenameCommits(Intended, s, oldPath, newPath, user, group, renameHook, destroyHook, now, pl);
      PlainCommitFacts(s, pl, destroyHook, now);
    }
  }

  /** The intended commit of a plain, checked plan moves the entry and leaves the parents' other names alone. */
  lemma PlainCommitFacts(s: Store, pl: Plan, destroyHook: Route.Dispatch, now: int)
    requires WellFormed(s) && PlanOk(s, pl) && Plain(pl)
    ensures var r := Commit(Intended, s, pl.parents, pl.oldBase, pl.newBase, pl.oldEnt, pl.newEnt, destroyHook, now);
      && ES.Find(r[NewDir(pl.parents)].children, pl.newBase) == Some(pl.oldEnt)
      && ES.Find(r[OldDir(pl.parents)].children, pl.oldBase) == None
      && (forall n :: n != pl.oldBase && n != pl.newBase ==>
            ES.Find(r[NewDir(pl.parents)].children, n) == ES.Find(s[NewDir(pl.parents)].children, n)
            && ES.Find(r[OldDir(pl.parents)].children, n) == ES.Find(s[OldDir(pl.parents)].children, n))
  {
    CommitFacts(Intended, s, pl.parents, pl.oldBase, pl.newBase, pl.oldEnt, pl.newEnt, destroyHook, now);
  }

  /** A rename whose checks give a plan and whose route succeeds commits that plan. */
  lemma RenameCommits(reading: Reading, s: Store, oldPath: string, newPath: string, user: int, group: int,
                      renameHook: Route.Dispatch, destroyHook: Route.Dispatch, now: int, pl: Plan)
    requires WellFormed(s) && Prepare(reading, s, oldPath, newPath, user, group).1 == Some(pl)
    requires Route.RunUser(renameHook) == 0
    ensures PlanOk(s, pl)
    ensures RenameWith(reading, s, oldPath, newPath, user, group, renameHook, destroyHook, now)
         == (0, Commit(reading, s, pl.parents, pl.oldBase, pl.newBase, pl.oldEnt, pl.newEnt, destroyHook, now))
  {
  }

  /**
   * Apart from the moved entry's own id, the as-written loop test only
   * narrows the intended one: a rename that passes its checks as written,
   * and does not move an entry onto its own new path, passes them with the
   * same plan under the intended reading.
   */
  lemma AsWrittenChecksStricter(s: Store, oldPath: string, newPath: string, user: int, group: int)
    requires WellFormed(s)
    ensures Prepare(AsWritten, s, oldPath, newPath, user, group).0 == 0 && !MovesOntoOwnPath(s, oldPath, newPath, user, group) ==>
              Prepare(AsWritten, s, oldPath, newPath, user, group) == Prepare(Intended, s, oldPath, newPath, user, group)
  {
    var (e, c) := Locate(s, oldPath, newPath, user, group);
    if c.Some? {
      var pl := c.value;
      VetStricter(s, pl.parents, pl.oldEnt, pl.newEnt);
    }
  }

  /**
   * A destination the as-written checks accept, the intended checks accept
   * too, unless the moved entry's id is on the new parent's path.
   */
  lemma VetStricter(s: Store, p: Parents, oldEnt: Ref, newEnt: Option<Ref>)
    requires oldEnt in s && (newEnt.Some? ==> newEnt.value in s)
    ensures Vet(AsWritten, s, p, oldEnt, newEnt) == 0 && !OnNewPath(s, p, oldEnt) ==> Vet(Intended, s, p, oldEnt, newEnt) == 0
  {
    if newEnt.Some? && p.Apart? {
      assert Contains(Intended, p.ids, s[newEnt.value].fileId) ==> Contains(AsWritten, p.ids, s[newEnt.value].fileId);
    }
  }

  /**
   * Renaming an entry onto itself (rename.c:343-360) succeeds and changes
   * nothing: the route is not run and nothing is committed.
   */
  lemma SameEntryNoop(reading: Reading, s: Store, oldPath: string, newPath: string, user: int, group: int,
                      renameHook: Route.Dispatch, destroyHook: Route.Dispatch, now: int, p: Parents)
    requires WellFormed(s)
    requires PathStr.BasenameLenOf(oldPath) <= NAMEMAX && PathStr.BasenameLenOf(newPath) <= NAMEMAX
    requires ResolveParents(s, oldPath, newPath, user, group) == (0, Some(p))
    requires MayEdit(s[OldDir(p)], user, group) && MayEdit(s[NewDir(p)], user, group)
    requires ES.Find(s[OldDir(p)].children, PathStr.Basename(oldPath)).Some?
    requires ES.Find(s[OldDir(p)].children, PathStr.Basename(oldPath)) == ES.Find(s[NewDir(p)].children, PathStr.Basename(newPath))
    ensures RenameWith(reading, s, oldPath, newPath, user, group, renameHook, destroyHook, now) == (0, s)
  {
  }

  /**
   * The intended loop test refuses to move an entry below itself: when a
   * separately resolved new parent is reached through the moved entry
   * (some prefix of the new parent's path looks up to it, the whole path
   * included), the rename fails and changes nothing, with -EINVAL when
   * the destination is absent or passes the type tests.
   */
  lemma BelowItselfRefused(s: Store, oldPath: string, newPath: string, user: int, group: int,
                           renameHook: Route.Dispatch, destroyHook: Route.Dispatch, now: int, k: nat)
    requires WellFormed(s)
    ensures var pl := Locate(s, oldPath, newPath, user, group).1;
      var names := Names(PathStr.DirnameOf(newPath));
      pl.Some? && pl.value.parents.Apart? && k <= |names| && LookupPath(s, ROOT, names[..k]) == Some(pl.value.oldEnt) ==>
        && MovesOntoOwnPath(s, oldPath, newPath, user, group)
        && var (rc, r) := RenameSpec(s, oldPath, newPath, user, group, renameHook, destroyHook, now);
        && rc != 0 && r == s
        && (EntriesAgree(s, pl.value.oldEnt, pl.value.newEnt) ==> rc == -EINVAL)
  {
    var pl := Locate(s, oldPath, newPath, user, group).1;
    var names := Names(PathStr.DirnameOf(newPath));
    if pl.Some? && pl.value.parents.Apart? && k <= |names| && LookupPath(s, ROOT, names[..k]) == Some(pl.value.oldEnt) {
      PrefixIdOnChain(s, ROOT, names, k, pl.value.oldEnt);
      assert OnNewPath(s, pl.value.parents, pl.value.oldEnt);
    }
  }

  /**
   * As written the loop test runs only when the destination name exists
   * (rename.c:386), so a rename onto a free name that moves an entry onto
   * its own new path passes every check and is committed once the route
   * agrees; the intended test refuses it with -EINVAL and changes nothing.
   */
  lemma BelowItselfCommitsAsWritten(s: Store, oldPath: string, newPath: string, user: int, group: int,
                                    renameHook: Route.Dispatch, destroyHook: Route.Dispatch, now: int)
    requires WellFormed(s)
    ensures var plan := Locate(s, oldPath, newPath, user, group).1;
      plan.Some? && plan.value.newEnt.None? && MovesOntoOwnPath(s, oldPath, newPath, user, group)
      && Route.RunUser(renameHook) == 0 ==>
        var pl := plan.value;
        && Prepare(AsWritten, s, oldPath, newPath, user, group) == (0, plan)
        && RenameAsWritten(s, oldPath, newPath, user, group, renameHook, destroyHook, now)
           == (0, Commit(AsWritten, s, pl.parents, pl.oldBase, pl.newBase, pl.oldEnt, None, destroyHook, now))
        && RenameSpec(s, oldPath, newPath, user, group, renameHook, destroyHook, now) == (-EINVAL, s)
  {
    var plan := Locate(s, oldPath, newPath, user, group).1;
    if plan.Some? && plan.value.newEnt.None? && MovesOntoOwnPath(s, oldPath, newPath, user, group)
       && Route.RunUser(renameHook) == 0 {
      var pl := plan.value;
      assert Vet(AsWritten, s, pl.parents, pl.oldEnt, None) == 0;
      assert Vet(Intended, s, pl.parents, pl.oldEnt, None) == -EINVAL;
      RenameCommits(AsWritten, s, oldPath, newPath, user, group, renameHook, destroyHook, now, pl);
    }
  }

  /**
   * As written, fskit_inode_set_contains finds a member for any
   * non-empty set, and the set for a separately resolved new parent holds
   * at least the root: every rename onto an existing entry in a different
   * directory that passes the type and emptiness tests is refused with
   * -EINVAL, where the intended test lets it through to the route.
   */
  lemma LoopTestRefusesEveryReplace(s: Store, oldPath: string, newPath: string, user: int, group: int,
                                    renameHook: Route.Dispatch, destroyHook: Route.Dispatch, now: int)
    requires WellFormed(s)
    ensures var plan := Prepare(Intended, s, oldPath, newPath, user, group).1;
      plan.Some? && plan.value.parents.Apart? && plan.value.newEnt.Some? ==>
        && Prepare(AsWritten, s, oldPath, newPath, user, group) == (-EINVAL, None)
        && RenameAsWritten(s, oldPath, newPath, user, group, renameHook, destroyHook, now) == (-EINVAL, s)
        && RenameSpec(s, oldPath, newPath, user, group, renameHook, destroyHook, now).0 == Route.RunUser(renameHook)
  {
    var plan := Prepare(Intended, s, oldPath, newPath, user, group).1;
    if plan.Some? && plan.value.parents.Apart? && plan.value.newEnt.Some? {
      var pl := plan.value;
      var located := Locate(s, oldPath, newPath, user, group);
      assert located.1 == plan;
      assert |pl.parents.ids| > 0;
      assert Vet(Intended, s, pl.parents, pl.oldEnt, pl.newEnt) == 0;
      assert Vet(AsWritten, s, pl.parents, pl.oldEnt, pl.newEnt) == -EINVAL;
      var asWritten := Prepare(AsWritten, s, oldPath, newPath, user, group);
      assert asWritten == (-EINVAL, None);
      assert RenameWith(AsWritten, s, oldPath, newPath, user, group, renameHook, destroyHook, now) == (-EINVAL, s);
    }
  }

  /**
   * As written, renaming a directory with more than two children leaves
   * it bound under both names, since the ignored detach refuses to unlink
   * it; the intended rename leaves only the new name.
   */
  lemma CrowdedDirectoryKeepsOldName(s: Store, oldPath: string, newPath: string, user: int, group: int,
                                     renameHook: Route.Dispatch, destroyHook: Route.Dispatch, now: int)
    requires WellFormed(s)
    ensures var plan := Prepare(AsWritten, s, oldPath, newPath, user, group).1;
      && plan.Some? && Plain(plan.value) && Crowded(s[plan.value.oldEnt]) && Route.RunUser(renameHook) == 0
      && !OnNewPath(s, plan.value.parents, plan.value.oldEnt) ==>
        var pl := plan.value;
        var r := RenameAsWritten(s, oldPath, newPath, user, group, renameHook, destroyHook, now).1;
        var r' := RenameSpec(s, oldPath, newPath, user, group, renameHook, destroyHook, now).1;
        && ES.Find(r[OldDir(pl.parents)].children, pl.oldBase) == Some(pl.oldEnt)
        && ES.Find(r[NewDir(pl.parents)].children, pl.newBase) == Some(pl.oldEnt)
        && ES.Find(r'[OldDir(pl.parents)].children, pl.oldBase) == None
        && ES.Find(r'[NewDir(pl.parents)].children, pl.newBase) == Some(pl.oldEnt)
  {
    var plan := Prepare(AsWritten, s, oldPath, newPath, user, group).1;
    if plan.Some? && Plain(plan.value) && Crowded(s[plan.value.oldEnt]) && Route.RunUser(renameHook) == 0
       && !OnNewPath(s, plan.value.parents, plan.value.oldEnt) {
      var pl := plan.value;
      assert !MovesOntoOwnPath(s, oldPath, newPath, user, group);
      AsWrittenChecksStricter(s, oldPath, newPath, user, group);
      RenameCommits(AsWritten, s, oldPath, newPath, user, group, renameHook, destroyHook, now, pl);
      RenameCommits(Intended, s, oldPath, newPath, user, group, renameHook, destroyHook, now, pl);
      CommitFacts(AsWritten, s, pl.parents, pl.oldBase, pl.newBase, pl.oldEnt, pl.newEnt, destroyHook, now);
      CommitFacts(Intended, s, pl.parents, pl.oldBase, pl.newBase, pl.oldEnt, pl.newEnt, destroyHook, now);
    }
  }

  /** A file entry linked once, with file id k. */
  function LinkedFile(k: nat): (n: Node)
    ensures forall dom :: NodeOk(dom, n)
    ensures n.kind == TYPE_FILE && n.fileId == k && n.linkCount == 1 && !Gone(n)
  {
    InitCommon(TYPE_FILE, k, 0, 0, 0x1A4, 0).(linkCount := 1)
  }

  /** Directory "d" (entry 1, under the root) holding files "f", "g" and "h" (entries 2 to 4). */
  function CrowdedDir(): (n: Node)
    ensures NodeOk({0, 1, 2, 3, 4}, n)
    ensures n.kind == TYPE_DIR && NumChildren(n) == 3 && n.linkCount == 1
  {
    var dom: set<Ref> := {0, 1, 2, 3, 4};
    var d := InitDir(1, ROOT, 1, 0, 0, 0x1ED, 0);
    var k1 := ES.Insert(d.children, "f", 2);
    var k2 := ES.Insert(k1, "g", 3);
    RefsInInsert(d.children, dom, "f", 2);
    RefsInInsert(k1, dom, "g", 3);
    RefsInInsert(k2, dom, "h", 4);
    d.(linkCount := 1, children := ES.Insert(k2, "h", 4), numChildren := 3)
  }

  /** The root holding "d" only. */
  function RootWithD(): (n: Node)
    ensures NodeOk({0, 1, 2, 3, 4}, n)
    ensures n.kind == TYPE_DIR && n.linkCount == 1 && !n.deletionInProgress
    ensures ES.Find(n.children, "d") == Some(1) && ES.Find(n.children, "e") == None
  {
    var root := RootNode(0);
    RefsInByFind(root.children, {0, 1, 2, 3, 4});
    RefsInInsert(root.children, {0, 1, 2, 3, 4}, "d", 1);
    assert ES.Find(root.children, "e") == None;
    root.(children := ES.Insert(root.children, "d", 1), numChildren := 1)
  }

  /** The entries of CrowdedExample, by reference. */
  function CrowdedEntry(r: Ref): (n: Node)
    ensures NodeOk({0, 1, 2, 3, 4}, n)
  {
    if r == ROOT then RootWithD() else if r == 1 then CrowdedDir() else LinkedFile(r)
  }

  /** The store of RootWithD, CrowdedDir and three linked files. */
  function CrowdedExample(): (s: Store)
    ensures WellFormed(s) && s.Keys == {0, 1, 2, 3, 4}
    ensures s[ROOT] == RootWithD() && s[1] == CrowdedDir()
  {
    var dom: set<Ref> := {0, 1, 2, 3, 4};
    var s := map r | r in dom :: CrowdedEntry(r);
    assert s.Keys == dom;
    s
  }

  /** The one-component paths "/d" and "/e". */
  lemma TopLevelPaths(name: string)
    requires |name| == 1 && name[0] != '/'
    ensures PathStr.Basename("/" + name) == name && PathStr.BasenameLenOf("/" + name) == 1
    ensures PathStr.DirnameOf("/" + name) == "/" && PathStr.DepthOf("/" + name) == 1
  {
    PathStr.BasenameOfComponent("", name);
    assert "" + "/" + name == "/" + name;
    PathStr.DirnameOfRoot(name);
    var p := "/" + name;
    assert p[1..] == name && name[1..] == [];
    assert PathStr.Slashes(name) == 0;
    assert PathStr.DepthOf(p) == PathStr.Slashes(p) == 1;
  }

  /** The root path names no component. */
  lemma RootNamesNothing()
    ensures Names("/") == []
  {
    NamesAreComponents("/");
    assert "/"[1..] == "";
  }

  /** Both paths of rename("/d", "/e") lie in the root, which uid 0 may search and write. */
  lemma CrowdedParents(s: Store)
    requires WellFormed(s) && s[ROOT].kind == TYPE_DIR && s[ROOT].linkCount == 1 && !s[ROOT].deletionInProgress
    ensures ResolveParents(s, "/d", "/e", ROOT_USER_ID, 0) == (0, Some(Common(ROOT)))
    ensures MayEdit(s[ROOT], ROOT_USER_ID, 0)
  {
    TopLevelPaths("d");
    TopLevelPaths("e");
    assert "/" + "d" == "/d" && "/" + "e" == "/e";
    RootResolves(s);
  }

  /** uid 0 resolves "/" to the root. */
  lemma RootResolves(s: Store)
    requires WellFormed(s) && s[ROOT].kind == TYPE_DIR && s[ROOT].linkCount == 1 && !s[ROOT].deletionInProgress
    ensures ResolveSpec(s, "/", ROOT_USER_ID, 0, false) == Outcome(0, Some(ROOT), [])
    ensures MayEdit(s[ROOT], ROOT_USER_ID, 0)
  {
    RootNamesNothing();
    RootPassesAll(s[ROOT].mode, s[ROOT].owner, s[ROOT].group, 0);
    assert Walk(s, ROOT, [], ROOT_USER_ID, 0, false, []) == Outcome(0, Some(ROOT), []);
  }

  /** Locate's success path, stated on the facts it tests. */
  lemma LocateFinds(s: Store, oldPath: string, newPath: string, user: int, group: int, p: Parents, o: Ref)
    requires WellFormed(s)
    requires PathStr.BasenameLenOf(oldPath) <= NAMEMAX && PathStr.BasenameLenOf(newPath) <= NAMEMAX
    requires ResolveParents(s, oldPath, newPath, user, group) == (0, Some(p))
    requires MayEdit(s[OldDir(p)], user, group) && MayEdit(s[NewDir(p)], user, group)
    requires ES.Find(s[OldDir(p)].children, PathStr.Basename(oldPath)) == Some(o)
    requires ES.Find(s[NewDir(p)].children, PathStr.Basename(newPath)) != Some(o)
    ensures Locate(s, oldPath, newPath, user, group)
         == (0, Some(Plan(p, PathStr.Basename(oldPath), PathStr.Basename(newPath), o,
                          ES.Find(s[NewDir(p)].children, PathStr.Basename(newPath)))))
  {
  }

  /** Prepare's success path: a located plan whose entries pass Vet. */
  lemma PrepareFinds(reading: Reading, s: Store, oldPath: string, newPath: string, user: int, group: int, pl: Plan)
    requires WellFormed(s) && Locate(s, oldPath, newPath, user, group) == (0, Some(pl))
    requires pl.oldEnt in s && (pl.newEnt.Some? ==> pl.newEnt.value in s)
    requires Vet(reading, s, pl.parents, pl.oldEnt, pl.newEnt) == 0
    ensures Prepare(reading, s, oldPath, newPath, user, group) == (0, Some(pl))
  {
  }

  /** Two entries of one non-directory type pass Vet unless one of their ids is on the new parent's path. */
  lemma VetSameKind(s: Store, p: Parents, oldEnt: Ref, newEnt: Ref)
    requires oldEnt in s && newEnt in s
    requires s[oldEnt].kind == s[newEnt].kind != TYPE_DIR
    requires p.Apart? ==> s[newEnt].fileId !in p.ids && s[oldEnt].fileId !in p.ids
    ensures Vet(Intended, s, p, oldEnt, Some(newEnt)) == 0
  {
  }

  /** The basenames of "/d" and "/e". */
  lemma CrowdedNames()
    ensures PathStr.BasenameLenOf("/d") == 1 && PathStr.BasenameLenOf("/e") == 1
    ensures PathStr.Basename("/d") == "d" && PathStr.Basename("/e") == "e"
  {
    TopLevelPaths("d");
    TopLevelPaths("e");
    assert "/" + "d" == "/d" && "/" + "e" == "/e";
  }

  /** All checks pass for rename("/d", "/e"): the plan moves entry 1 from "d" to "e" in the root. */
  lemma CrowdedPrepare(s: Store)
    requires WellFormed(s) && s[ROOT].kind == TYPE_DIR && s[ROOT].linkCount == 1 && !s[ROOT].deletionInProgress
    requires ES.Find(s[ROOT].children, "d") == Some(1) && ES.Find(s[ROOT].children, "e") == None
    ensures Prepare(AsWritten, s, "/d", "/e", ROOT_USER_ID, 0) == (0, Some(Plan(Common(ROOT), "d", "e", 1, None)))
  {
    CrowdedParents(s);
    CrowdedNames();
    FoundIn(s[ROOT].children, s.Keys, "d");
    LocateFinds(s, "/d", "/e", ROOT_USER_ID, 0, Common(ROOT), 1);
    var pl := Plan(Common(ROOT), "d", "e", 1, None);
    assert Vet(AsWritten, s, Common(ROOT), 1, None) == 0;
    PrepareFinds(AsWritten, s, "/d", "/e", ROOT_USER_ID, 0, pl);
  }

  /**
   * rename("/d", "/e") by uid 0 on CrowdedExample with no routes: as
   * written the root ends with both "d" and "e" bound to the directory;
   * as intended only "e".
   */
  lemma CrowdedExampleKeepsBothNames()
    ensures var r := RenameAsWritten(CrowdedExample(), "/d", "/e", ROOT_USER_ID, 0, Route.NoRoute, Route.NoRoute, 0);
      r.0 == 0 && ES.Find(r.1[ROOT].children, "d") == Some(1) && ES.Find(r.1[ROOT].children, "e") == Some(1)
    ensures var r := RenameSpec(CrowdedExample(), "/d", "/e", ROOT_USER_ID, 0, Route.NoRoute, Route.NoRoute, 0);
      r.0 == 0 && ES.Find(r.1[ROOT].children, "d") == None && ES.Find(r.1[ROOT].children, "e") == Some(1)
  {
    var s := CrowdedExample();
    CrowdedPrepare(s);
    var pl := Plan(Common(ROOT), "d", "e", 1, None);
    assert Crowded(s[1]) && Plain(pl);
    CrowdedDirectoryKeepsOldName(s, "/d", "/e", ROOT_USER_ID, 0, Route.NoRoute, Route.NoRoute, 0);
    AsWrittenChecksStricter(s, "/d", "/e", ROOT_USER_ID, 0);
  }

  /** A directory entry k under parent, holding name bound to child, linked once, with file id k. */
  function DirHolding(k: Ref, parent: Ref, name: string, child: Ref, dom: set<Ref>): (n: Node)
    requires name != "." && name != ".." && k in dom && parent in dom && child in dom
    ensures NodeOk(dom, n)
    ensures n.kind == TYPE_DIR && n.fileId == k && n.linkCount == 1 && !Gone(n)
    ensures ES.Find(n.children, name) == Some(child)
  {
    var d := InitDir(k, parent, k, 0, 0, 0x1ED, 0);
    RefsInInsert(d.children, dom, name, child);
    d.(linkCount := 1, children := ES.Insert(d.children, name, child), numChildren := 1)
  }

  /** The root holding directories "a" (entry 1) and "b" (entry 2). */
  function RootWithAB(): (n: Node)
    ensures NodeOk({0, 1, 2, 3, 4}, n)
    ensures n.kind == TYPE_DIR && n.linkCount == 1 && !n.deletionInProgress && n.fileId == 0
    ensures ES.Find(n.children, "a") == Some(1) && ES.Find(n.children, "b") == Some(2)
  {
    var root := RootNode(0);
    var dom: set<Ref> := {0, 1, 2, 3, 4};
    RefsInByFind(root.children, dom);
    var k1 := ES.Insert(root.children, "a", 1);
    RefsInInsert(root.children, dom, "a", 1);
    RefsInInsert(k1, dom, "b", 2);
    root.(children := ES.Insert(k1, "b", 2), numChildren := 2)
  }

  /** The references of ReplaceExample. */
  const REPLACE_REFS: set<Ref> := {0, 1, 2, 3, 4}

  /** The entries of ReplaceExample, by reference. */
  function ReplaceEntry(r: Ref): (n: Node)
    ensures NodeOk(REPLACE_REFS, n)
    ensures r == ROOT ==> n == RootWithAB()
    ensures r == 1 ==> n == DirHolding(1, ROOT, "x", 3, REPLACE_REFS)
    ensures r == 2 ==> n == DirHolding(2, ROOT, "y", 4, REPLACE_REFS)
    ensures r > 2 ==> n == LinkedFile(r)
  {
    if r == ROOT then RootWithAB()
    else if r == 1 then DirHolding(1, ROOT, "x", 3, REPLACE_REFS)
    else if r == 2 then DirHolding(2, ROOT, "y", 4, REPLACE_REFS)
    else LinkedFile(r)
  }

  /** Files "/a/x" (entry 3) and "/b/y" (entry 4) in two directories under the root. */
  function ReplaceExample(): (s: Store)
    ensures s.Keys == REPLACE_REFS && ReplaceShape(s)
  {
    var s := map r | r in REPLACE_REFS :: ReplaceEntry(r);
    assert s.Keys == REPLACE_REFS;
    assert s[ROOT] == RootWithAB();
    assert s[1] == DirHolding(1, ROOT, "x", 3, REPLACE_REFS);
    assert s[2] == DirHolding(2, ROOT, "y", 4, REPLACE_REFS);
    assert s[3] == LinkedFile(3) && s[4] == LinkedFile(4);
    s
  }

  /** The two-component paths "/a/x" and "/b/y". */
  lemma SecondLevelPath(dir: string, name: string)
    requires |dir| == 1 && dir[0] != '/' && |name| == 1 && name[0] != '/'
    ensures PathStr.Basename("/" + dir + "/" + name) == name && PathStr.BasenameLenOf("/" + dir + "/" + name) == 1
    ensures PathStr.DirnameOf("/" + dir + "/" + name) == "/" + dir && PathStr.DepthOf("/" + dir + "/" + name) == 2
  {
    var d := "/" + dir;
    PathStr.BasenameOfComponent(d, name);
    PathStr.DirnameOfPrefix(d, name);
    PathStr.DepthAppend(d, name);
    TopSlashes(dir);
  }

  /** A one-character name under the root holds one slash. */
  lemma TopSlashes(dir: string)
    requires |dir| == 1 && dir[0] != '/'
    ensures PathStr.Slashes("/" + dir) == 1
  {
    assert ("/" + dir)[1..] == dir;
    assert dir[1..] == [];
    assert PathStr.Slashes(dir) == 0;
  }

  /** A one-character name under the root names just that component. */
  lemma TopLevelNames(dir: string)
    requires |dir| == 1 && dir[0] != '/' && dir != "."
    ensures Names("/" + dir) == [dir]
  {
    NamesAreComponents("/" + dir);
    assert Strs.Fields("/" + dir, PathStr.SLASH) == [dir] by {
      assert ("/" + dir)[1..] == dir;
      assert '/' in PathStr.SLASH && dir[0] !in PathStr.SLASH;
      Strs.RunLenIs(dir, PathStr.SLASH, 1);
      assert dir[..1] == dir && dir[1..] == [];
      assert Strs.Fields(dir, PathStr.SLASH) == [dir] + Strs.Fields([], PathStr.SLASH);
    }
    assert NonDot([dir]) == [dir];
  }

  /** The facts about "/a/x". */
  lemma PathAX()
    ensures PathStr.Basename("/a/x") == "x" && PathStr.BasenameLenOf("/a/x") == 1
    ensures PathStr.DirnameOf("/a/x") == "/a" && PathStr.DepthOf("/a/x") == 2
    ensures Names("/a") == ["a"]
  {
    SecondLevelPath("a", "x");
    TopLevelNames("a");
    assert "/" + "a" + "/" + "x" == "/a/x" && "/" + "a" == "/a";
  }

  /** The facts about "/b/y". */
  lemma PathBY()
    ensures PathStr.Basename("/b/y") == "y" && PathStr.BasenameLenOf("/b/y") == 1
    ensures PathStr.DirnameOf("/b/y") == "/b" && PathStr.DepthOf("/b/y") == 2
    ensures Names("/b") == ["b"]
  {
    SecondLevelPath("b", "y");
    TopLevelNames("b");
    assert "/" + "b" + "/" + "y" == "/b/y" && "/" + "b" == "/b";
  }

  /** The root facts the walks of ReplaceExample rely on. */
  ghost predicate RootAB(s: Store)
  {
    && WellFormed(s) && 1 in s && 2 in s
    && s[ROOT].kind == TYPE_DIR && s[ROOT].linkCount == 1 && !s[ROOT].deletionInProgress && s[ROOT].fileId == 0
    && ES.Find(s[ROOT].children, "a") == Some(1) && ES.Find(s[ROOT].children, "b") == Some(2)
    && s[1].kind == TYPE_DIR && s[1].linkCount == 1 && !Gone(s[1]) && s[1].fileId == 1
    && s[2].kind == TYPE_DIR && s[2].linkCount == 1 && !Gone(s[2]) && s[2].fileId == 2
  }

  /** Walking ["a"] from the root by uid 0 ends at entry 1. */
  lemma WalkToA(s: Store)
    requires RootAB(s)
    ensures Walk(s, ROOT, ["a"], ROOT_USER_ID, 0, false, []) == Outcome(0, Some(1), [])
  {
    RootPassesAll(s[ROOT].mode, s[ROOT].owner, s[ROOT].group, 0);
    RootPassesAll(s[1].mode, s[1].owner, s[1].group, 0);
    assert ["a"][1..] == [];
    assert Walk(s, 1, [], ROOT_USER_ID, 0, false, []) == Outcome(0, Some(1), []);
  }

  /** Walking ["b"] from the root by uid 0, collecting ids, ends at entry 2 with ids [0, 2]. */
  lemma WalkToB(s: Store)
    requires RootAB(s)
    ensures Walk(s, ROOT, ["b"], ROOT_USER_ID, 0, true, [0]) == Outcome(0, Some(2), [0, 2])
  {
    RootPassesAll(s[ROOT].mode, s[ROOT].owner, s[ROOT].group, 0);
    RootPassesAll(s[2].mode, s[2].owner, s[2].group, 0);
    assert ["b"][1..] == [];
    assert 2 !in [0] && [0] + [2] == [0, 2];
    assert Collect([0], 2) == (0, [0, 2]);
    assert Walk(s, 2, [], ROOT_USER_ID, 0, true, [0, 2]) == Outcome(0, Some(2), [0, 2]);
  }

  /** The parent of "/a/x", resolved by uid 0, is entry 1. */
  lemma ResolveA(s: Store)
    requires RootAB(s)
    ensures ResolveSpec(s, PathStr.DirnameOf("/a/x"), ROOT_USER_ID, 0, false) == Outcome(0, Some(1), [])
  {
    PathAX();
    WalkToA(s);
  }

  /** The parent of "/b/y", resolved by uid 0 collecting ids, is entry 2, with the ids [0, 2]. */
  lemma ResolveB(s: Store)
    requires RootAB(s)
    ensures ResolveSpec(s, PathStr.DirnameOf("/b/y"), ROOT_USER_ID, 0, true) == Outcome(0, Some(2), [0, 2])
  {
    PathBY();
    WalkToB(s);
  }

  /** "/a/x" and "/b/y" sit at depth 2 under different dirnames. */
  lemma ReplacePaths()
    ensures PathStr.DepthOf("/a/x") == PathStr.DepthOf("/b/y")
    ensures PathStr.DirnameOf("/a/x") != PathStr.DirnameOf("/b/y")
  {
    PathAX();
    PathBY();
    assert "/a" != "/b" by { assert "/a"[1] != "/b"[1]; }
  }

  /** Paths at the same depth with different dirnames: both parents are resolved, the new one first. */
  lemma SameDepthApart(s: Store, oldPath: string, newPath: string, user: int, group: int)
    requires WellFormed(s)
    requires PathStr.DepthOf(oldPath) == PathStr.DepthOf(newPath)
    requires PathStr.DirnameOf(oldPath) != PathStr.DirnameOf(newPath)
    ensures ResolveParents(s, oldPath, newPath, user, group)
         == Combine(ResolveSpec(s, PathStr.DirnameOf(newPath), user, group, true),
                    ResolveSpec(s, PathStr.DirnameOf(oldPath), user, group, false))
  {
  }

  /** The parents of "/a/x" and "/b/y" are entries 1 and 2, the ids on the way to "/b" those of the root and "b". */
  lemma ReplaceParents(s: Store)
    requires RootAB(s)
    ensures ResolveParents(s, "/a/x", "/b/y", ROOT_USER_ID, 0) == (0, Some(Apart(1, 2, [0, 2])))
  {
    ReplacePaths();
    SameDepthApart(s, "/a/x", "/b/y", ROOT_USER_ID, 0);
    ResolveA(s);
    ResolveB(s);
  }

  /** The basenames of "/a/x" and "/b/y". */
  lemma ReplaceNames()
    ensures PathStr.BasenameLenOf("/a/x") == 1 && PathStr.BasenameLenOf("/b/y") == 1
    ensures PathStr.Basename("/a/x") == "x" && PathStr.Basename("/b/y") == "y"
  {
    PathAX();
    PathBY();
  }

  /** The checks of rename("/a/x", "/b/y") by uid 0 pass under the intended reading. */
  lemma ReplacePrepare(s: Store)
    requires RootAB(s) && 3 in s && 4 in s
    requires ES.Find(s[1].children, "x") == Some(3) && ES.Find(s[2].children, "y") == Some(4)
    requires s[3].kind == TYPE_FILE && s[4].kind == TYPE_FILE && s[3].fileId == 3 && s[4].fileId == 4
    ensures Prepare(Intended, s, "/a/x", "/b/y", ROOT_USER_ID, 0) == (0, Some(Plan(Apart(1, 2, [0, 2]), "x", "y", 3, Some(4))))
  {
    ReplaceLocate(s);
    ReplaceIds();
    VetSameKind(s, Apart(1, 2, [0, 2]), 3, 4);
    PrepareFinds(Intended, s, "/a/x", "/b/y", ROOT_USER_ID, 0, Plan(Apart(1, 2, [0, 2]), "x", "y", 3, Some(4)));
  }

  /** Locate for rename("/a/x", "/b/y") by uid 0: both parents are writable, "x" names entry 3 and "y" entry 4. */
  lemma ReplaceLocate(s: Store)
    requires RootAB(s) && 3 in s && 4 in s
    requires ES.Find(s[1].children, "x") == Some(3) && ES.Find(s[2].children, "y") == Some(4)
    ensures Locate(s, "/a/x", "/b/y", ROOT_USER_ID, 0) == (0, Some(Plan(Apart(1, 2, [0, 2]), "x", "y", 3, Some(4))))
  {
    ReplaceParents(s);
    ReplaceNames();
    RootPassesAll(s[1].mode, s[1].owner, s[1].group, 0);
    RootPassesAll(s[2].mode, s[2].owner, s[2].group, 0);
    LocateFinds(s, "/a/x", "/b/y", ROOT_USER_ID, 0, Apart(1, 2, [0, 2]), 3);
  }

  /** The ids of "/a/x" and "/b/y" are not among the ids on the way to "/b". */
  lemma ReplaceIds()
    ensures 3 !in [0, 2] && 4 !in [0, 2]
  {
  }

  /** The stores ReplaceExample stands for: root, "a", "b" as RootAB says, "/a/x" file 3, "/b/y" file 4. */
  ghost predicate ReplaceShape(s: Store)
  {
    && RootAB(s) && 3 in s && 4 in s
    && ES.Find(s[1].children, "x") == Some(3) && ES.Find(s[2].children, "y") == Some(4)
    && s[3].kind == TYPE_FILE && s[4].kind == TYPE_FILE && s[3].fileId == 3 && s[4].fileId == 4
  }

  /** As written, rename("/a/x", "/b/y") by uid 0 on such a store is refused and changes nothing. */
  lemma ReplaceRefused(s: Store)
    requires ReplaceShape(s)
    ensures RenameAsWritten(s, "/a/x", "/b/y", ROOT_USER_ID, 0, Route.NoRoute, Route.NoRoute, 0) == (-EINVAL, s)
  {
    ReplacePrepare(s);
    LoopTestRefusesEveryReplace(s, "/a/x", "/b/y", ROOT_USER_ID, 0, Route.NoRoute, Route.NoRoute, 0);
  }

  /** As intended, the same rename succeeds and moves file 3 from "/a/x" to "/b/y". */
  lemma ReplaceMoves(s: Store)
    requires ReplaceShape(s)
    ensures var r := RenameSpec(s, "/a/x", "/b/y", ROOT_USER_ID, 0, Route.NoRoute, Route.NoRoute, 0);
      r.0 == 0 && ES.Find(r.1[2].children, "y") == Some(3) && ES.Find(r.1[1].children, "x") == None
  {
    ReplacePrepare(s);
    var pl := Plan(Apart(1, 2, [0, 2]), "x", "y", 3, Some(4));
    assert Plain(pl);
    assert Route.RunUser(Route.NoRoute) == 0;
    RenameMovesEntry(s, "/a/x", "/b/y", ROOT_USER_ID, 0, Route.NoRoute, Route.NoRoute, 0);
  }

  /**
   * rename("/a/x", "/b/y") by uid 0 on ReplaceExample with no routes:
   * as written it is refused with -EINVAL and changes nothing; as
   * intended it succeeds and "/b/y" names the moved file.
   */
  lemma ReplaceExampleRefused()
    ensures RenameAsWritten(ReplaceExample(), "/a/x", "/b/y", ROOT_USER_ID, 0, Route.NoRoute, Route.NoRoute, 0)
              == (-EINVAL, ReplaceExample())
    ensures var r := RenameSpec(ReplaceExample(), "/a/x", "/b/y", ROOT_USER_ID, 0, Route.NoRoute, Route.NoRoute, 0);
      r.0 == 0 && ES.Find(r.1[2].children, "y") == Some(3) && ES.Find(r.1[1].children, "x") == None
  {
    var s := ReplaceExample();
    ReplaceRefused(s);
    ReplaceMoves(s);
  }

  /** The references of DescentExample. */
  const DESCENT_REFS: set<Ref> := {0, 1, 2}

  /** The root holding directory "a" (entry 1) only. */
  function RootWithA(): (n: Node)
    ensures NodeOk(DESCENT_REFS, n)
    ensures n.kind == TYPE_DIR && n.linkCount == 1 && !n.deletionInProgress && n.fileId == 0 && n.numChildren == 1
    ensures ES.Find(n.children, "a") == Some(1)
  {
    var root := RootNode(0);
    RefsInByFind(root.children, DESCENT_REFS);
    RefsInInsert(root.children, DESCENT_REFS, "a", 1);
    root.(children := ES.Insert(root.children, "a", 1), numChildren := 1)
  }

  /** Directory "c" (entry 2) under "a", empty, linked once, with file id 2. */
  function EmptyDirC(): (n: Node)
    ensures NodeOk(DESCENT_REFS, n)
    ensures n.kind == TYPE_DIR && n.fileId == 2 && n.linkCount == 1 && !Gone(n)
    ensures ES.Find(n.children, "b") == None
  {
    var d := InitDir(2, 1, 2, 0, 0, 0x1ED, 0);
    assert ES.Find(d.children, "b") == None;
    d.(linkCount := 1)
  }

  /** Directories "/a" (entry 1) and "/a/c" (entry 2), and no "/a/c/b". */
  function DescentExample(): (s: Store)
    ensures s.Keys == DESCENT_REFS && DescentShape(s)
  {
    var s := map[ROOT := RootWithA(), 1 := DirHolding(1, ROOT, "c", 2, DESCENT_REFS), 2 := EmptyDirC()];
    assert s.Keys == DESCENT_REFS;
    s
  }

  /** The stores DescentExample stands for. */
  ghost predicate DescentShape(s: Store)
  {
    && WellFormed(s) && 1 in s && 2 in s
    && s[ROOT].kind == TYPE_DIR && s[ROOT].linkCount == 1 && !s[ROOT].deletionInProgress && s[ROOT].fileId == 0
    && s[ROOT].numChildren == 1 && ES.Find(s[ROOT].children, "a") == Some(1)
    && s[1].kind == TYPE_DIR && s[1].linkCount == 1 && !Gone(s[1]) && s[1].fileId == 1 && s[1].numChildren == 1
    && ES.Find(s[1].children, "c") == Some(2)
    && s[2].kind == TYPE_DIR && s[2].linkCount == 1 && !Gone(s[2]) && s[2].fileId == 2
    && ES.Find(s[2].children, "b") == None
  }

  /** A component of one character other than '/' is a field of its own. */
  lemma FieldsOneChar(x: char, rest: string)
    requires x != '/' && (|rest| == 0 || rest[0] == '/')
    ensures Strs.Fields([x] + rest, PathStr.SLASH) == [[x]] + Strs.Fields(rest, PathStr.SLASH)
  {
    var t := [x] + rest;
    assert t[1..] == rest && t[0] == x && x !in PathStr.SLASH;
    assert Strs.RunLen(rest, PathStr.SLASH) == 0;
    assert Strs.RunLen(t, PathStr.SLASH) == 1;
    assert t[..1] == [x];
  }

  /** A leading '/' is skipped. */
  lemma FieldsSlash(rest: string)
    ensures Strs.Fields(['/'] + rest, PathStr.SLASH) == Strs.Fields(rest, PathStr.SLASH)
  {
    assert (['/'] + rest)[1..] == rest && '/' in PathStr.SLASH;
  }

  /** The path "/a/c" names "a" and then "c". */
  lemma NamesAC()
    ensures Names("/a/c") == ["a", "c"]
  {
    NamesAreComponents("/a/c");
    FieldsOneChar('c', []);
    FieldsSlash("c");
    FieldsOneChar('a', "/c");
    FieldsSlash("a/c");
    assert ['/'] + "a/c" == "/a/c" && ['a'] + "/c" == "a/c" && ['/'] + "c" == "/c" && ['c'] + [] == "c";
    assert Strs.Fields("/a/c", PathStr.SLASH) == ["a", "c"];
    assert NonDot(["a", "c"]) == ["a", "c"] by {
      assert ["a", "c"][1..] == ["c"] && ["c"][1..] == [];
    }
  }

  /** "/a/c" holds two slashes. */
  lemma SlashesAC()
    ensures PathStr.Slashes("/a/c") == 2
  {
    PathStr.DepthAppend("/a", "c");
    TopSlashes("a");
    assert "/" + "a" == "/a" && "/a" + "/" + "c" == "/a/c";
  }

  /** The facts about "/a/c/b". */
  lemma PathACB()
    ensures PathStr.Basename("/a/c/b") == "b" && PathStr.BasenameLenOf("/a/c/b") == 1
    ensures PathStr.DirnameOf("/a/c/b") == "/a/c" && PathStr.DepthOf("/a/c/b") == 3
  {
    var d := "/a/c";
    PathStr.BasenameOfComponent(d, "b");
    PathStr.DirnameOfPrefix(d, "b");
    PathStr.DepthAppend(d, "b");
    SlashesAC();
    assert d + "/" + "b" == "/a/c/b";
  }

  /** The facts about "/a". */
  lemma PathA()
    ensures PathStr.Basename("/a") == "a" && PathStr.BasenameLenOf("/a") == 1
    ensures PathStr.DirnameOf("/a") == "/" && PathStr.DepthOf("/a") == 1
  {
    TopLevelPaths("a");
    assert "/" + "a" == "/a";
  }

  /** Walking ["c"] from entry 1 by uid 0, collecting ids, ends at entry 2 with ids [0, 1, 2]. */
  lemma WalkFromA(s: Store)
    requires DescentShape(s)
    ensures Walk(s, 1, ["c"], ROOT_USER_ID, 0, true, [0, 1]) == Outcome(0, Some(2), [0, 1, 2])
  {
    RootPassesAll(s[1].mode, s[1].owner, s[1].group, 0);
    RootPassesAll(s[2].mode, s[2].owner, s[2].group, 0);
    assert ["c"][1..] == [];
    assert 2 !in [0, 1] && [0, 1] + [2] == [0, 1, 2];
    assert Collect([0, 1], 2) == (0, [0, 1, 2]);
    assert Walk(s, 2, [], ROOT_USER_ID, 0, true, [0, 1, 2]) == Outcome(0, Some(2), [0, 1, 2]);
  }

  /** Walking ["a", "c"] from the root by uid 0, collecting ids, ends at entry 2 with ids [0, 1, 2]. */
  lemma WalkToAC(s: Store)
    requires DescentShape(s)
    ensures Walk(s, ROOT, ["a", "c"], ROOT_USER_ID, 0, true, [0]) == Outcome(0, Some(2), [0, 1, 2])
  {
    RootPassesAll(s[ROOT].mode, s[ROOT].owner, s[ROOT].group, 0);
    assert ["a", "c"][1..] == ["c"];
    assert 1 !in [0] && [0] + [1] == [0, 1];
    assert Collect([0], 1) == (0, [0, 1]);
    WalkFromA(s);
  }

  /** The parents of "/a" and "/a/c/b": the root, and entry 2 reached through the root and entry 1. */
  lemma DescentParents(s: Store)
    requires DescentShape(s)
    ensures ResolveParents(s, "/a", "/a/c/b", ROOT_USER_ID, 0) == (0, Some(Apart(ROOT, 2, [0, 1, 2])))
  {
    PathA();
    PathACB();
    NamesAC();
    WalkToAC(s);
    assert ResolveSpec(s, "/a/c", ROOT_USER_ID, 0, true) == Outcome(0, Some(2), [0, 1, 2]);
    RootResolves(s);
  }

  /** Locate for rename("/a", "/a/c/b") by uid 0: "a" in the root names entry 1 and "b" in entry 2 is free. */
  lemma DescentLocate(s: Store)
    requires DescentShape(s)
    ensures Locate(s, "/a", "/a/c/b", ROOT_USER_ID, 0) == (0, Some(Plan(Apart(ROOT, 2, [0, 1, 2]), "a", "b", 1, None)))
  {
    DescentParents(s);
    PathA();
    PathACB();
    RootPassesAll(s[ROOT].mode, s[ROOT].owner, s[ROOT].group, 0);
    RootPassesAll(s[2].mode, s[2].owner, s[2].group, 0);
    LocateFinds(s, "/a", "/a/c/b", ROOT_USER_ID, 0, Apart(ROOT, 2, [0, 1, 2]), 1);
  }

  /**
   * As written, rename("/a", "/a/c/b") by uid 0 with no routes moves "/a"
   * below itself: it succeeds, the root no longer names "a" and has no
   * counted child, "/a/c" binds "b" to entry 1, and entry 1 still binds
   * "c" to entry 2, so the two directories name each other while the
   * root has lost its only counted child. The intended checks refuse it with
   * -EINVAL and leave the store as it was.
   */
  lemma DescentMakesCycle(s: Store)
    requires DescentShape(s)
    ensures var (rc, r) := RenameAsWritten(s, "/a", "/a/c/b", ROOT_USER_ID, 0, Route.NoRoute, Route.NoRoute, 0);
      && rc == 0
      && ES.Find(r[ROOT].children, "a") == None && r[ROOT].numChildren == 0
      && ES.Find(r[2].children, "b") == Some(1)
      && ES.Find(r[1].children, "c") == Some(2)
    ensures RenameSpec(s, "/a", "/a/c/b", ROOT_USER_ID, 0, Route.NoRoute, Route.NoRoute, 0) == (-EINVAL, s)
  {
    var p := Apart(ROOT, 2, [0, 1, 2]);
    var pl := Plan(p, "a", "b", 1, None);
    DescentLocate(s);
    assert s[1].fileId in p.ids;
    assert Route.RunUser(Route.NoRoute) == 0;
    BelowItselfCommitsAsWritten(s, "/a", "/a/c/b", ROOT_USER_ID, 0, Route.NoRoute, Route.NoRoute, 0);
    DescentCommit(s);
  }

  /** rename("/a", "/a/c/b") by uid 0 on DescentExample with no routes: the cycle as written, -EINVAL as intended. */
  lemma DescentExampleMakesCycle()
    ensures var (rc, r) := RenameAsWritten(DescentExample(), "/a", "/a/c/b", ROOT_USER_ID, 0, Route.NoRoute, Route.NoRoute, 0);
      rc == 0 && ES.Find(r[ROOT].children, "a") == None && ES.Find(r[2].children, "b") == Some(1) && ES.Find(r[1].children, "c") == Some(2)
    ensures RenameSpec(DescentExample(), "/a", "/a/c/b", ROOT_USER_ID, 0, Route.NoRoute, Route.NoRoute, 0) == (-EINVAL, DescentExample())
  {
    DescentMakesCycle(DescentExample());
  }

  /** The as-written commit of DescentMakesCycle's plan, entry by entry. */
  lemma DescentCommit(s: Store)
    requires DescentShape(s)
    ensures var r := Commit(AsWritten, s, Apart(ROOT, 2, [0, 1, 2]), "a", "b", 1, None, Route.NoRoute, 0);
      && ES.Find(r[ROOT].children, "a") == None && r[ROOT].numChildren == 0
      && ES.Find(r[2].children, "b") == Some(1)
      && ES.Find(r[1].children, "c") == Some(2)
  {
    var p := Apart(ROOT, 2, [0, 1, 2]);
    assert OldDir(p) == ROOT && NewDir(p) == 2;
    var s1 := DetachOld(AsWritten, s, ROOT, "a", 0);
    DescentDetach(s);
    DescentAttach(s1);
    var r := AttachStore(s1, 2, 1, "b", 0);
    CommitWithoutDestination(s, p, "a", "b", 1, Route.NoRoute, 0);
    assert Commit(AsWritten, s, p, "a", "b", 1, None, Route.NoRoute, 0) == r;
  }

  /** With no destination the as-written commit is the detach of the old name, then the attach. */
  lemma CommitWithoutDestination(s: Store, p: Parents, oldBase: string, newBase: string, oldEnt: Ref,
                                 destroyHook: Route.Dispatch, now: int)
    requires WellFormed(s) && OldDir(p) in s && NewDir(p) in s && oldEnt in s
    ensures var s1 := DetachOld(AsWritten, s, OldDir(p), oldBase, now);
      Commit(AsWritten, s, p, oldBase, newBase, oldEnt, None, destroyHook, now) == AttachStore(s1, NewDir(p), oldEnt, newBase, now)
  {
  }

  /** Attaching entry 1 as "b" under entry 2 binds it there and keeps entry 1's "c" and the root. */
  lemma DescentAttach(s: Store)
    requires WellFormed(s) && 1 in s && 2 in s && s[1].kind == TYPE_DIR && ES.Find(s[1].children, "c") == Some(2)
    ensures var r := AttachStore(s, 2, 1, "b", 0);
      ES.Find(r[2].children, "b") == Some(1) && ES.Find(r[1].children, "c") == Some(2) && r[ROOT] == s[ROOT]
  {
    AttachSpec(s, 2, 1, "b", 0);
    assert "c" != "..";
  }

  /** The as-written detach of "a" from the root in DescentExample succeeds and keeps entries 1 and 2's names. */
  lemma DescentDetach(s: Store)
    requires DescentShape(s)
    ensures var s1 := DetachOld(AsWritten, s, ROOT, "a", 0);
      && ES.Find(s1[ROOT].children, "a") == None && s1[ROOT].numChildren == 0
      && s1[1].children == s[1].children && s1[1].kind == TYPE_DIR && s1[2] == s[2]
  {
    assert Detachable(s, ROOT, "a") by {
      FoundIn(s[ROOT].children, s.Keys, "a");
    }
    assert DetachStore(s, ROOT, "a", 0) == UnbindStore(s, ROOT, "a", 0);
  }

  /**
   * fskit_entry_rename_in_directory (rename.c:207-219): -ENOENT unless
   * oldName finds fent; otherwise oldName and newName are removed and
   * newName is bound to fent. The rename route is not run.
   */
  function RenameInDir(d: ES.Dir, fent: Ref, oldName: string, newName: string): (r: (int, ES.Dir))
    requires ES.Valid(d)
    ensures ES.Valid(r.1)
    ensures r.0 == 0 || r.0 == -ENOENT
    ensures r.0 == 0 <==> ES.Find(d, oldName) == Some(fent)
    ensures r.0 != 0 ==> r.1 == d
    ensures r.0 == 0 ==> ES.Find(r.1, newName) == Some(fent)
    ensures r.0 == 0 && oldName != newName && oldName != "." && oldName != ".." ==> ES.Find(r.1, oldName) == None
    ensures r.0 == 0 && oldName != newName && (oldName == "." || oldName == "..") ==> ES.Find(r.1, oldName) == Some(fent)
    ensures r.0 == 0 ==> forall n :: n != oldName && n != newName ==> ES.Find(r.1, n) == ES.Find(d, n)
  {
    if ES.Find(d, oldName) != Some(fent) then (-ENOENT, d)
    else
      var d1 := ES.Remove(d, oldName).1;
      ES.RemoveFind(d, oldName);
      var d2 := ES.Remove(d1, newName).1;
      ES.RemoveFind(d1, newName);
      (0, ES.Insert(d2, newName, fent))
  }

  /** Renaming a name to a fresh one and back restores the child set. */
  lemma RenameInDirRoundTrip(d: ES.Dir, fent: Ref, a: string, b: string)
    requires ES.Valid(d) && ES.Find(d, a) == Some(fent) && ES.Find(d, b) == None
    requires a != b && a != "." && a != ".." && b != "." && b != ".."
    ensures var (rc1, d1) := RenameInDir(d, fent, a, b);
      rc1 == 0 && RenameInDir(d1, fent, b, a) == (0, d)
  {
    var d1 := RenameInDir(d, fent, a, b).1;
    var d2 := RenameInDir(d1, fent, b, a).1;
    forall n ensures A.Find(d2, n) == A.Find(d, n) {
      if n != a && n != b {
        assert ES.Find(d2, n) == ES.Find(d1, n);
      }
      assert ES.Find(d2, n) == ES.Find(d, n);
    }
    A.Extensionality(d2, d);
  }

  /** fskit_entry_rename_in_directory on the parent's child set. */
  method RenameInDirectory(core: Core, parent: Ref, fent: Ref, oldName: string, newName: string) returns (rc: int)
    requires core.Valid() && parent in core.ents && fent in core.ents
    modifies core
    ensures core.Valid()
    ensures var (rc', d) := RenameInDir(old(core.ents)[parent].children, fent, oldName, newName);
      rc == rc' && core.ents == old(core.ents)[parent := old(core.ents)[parent].(children := d)]
  {
    var n := core.ents[parent];
    var res := RenameInDir(n.children, fent, oldName, newName);
    forall q | q in res.1 ensures q.1 in core.ents {
      var i :| 0 <= i < |res.1| && res.1[i] == q;
      A.FindAt(res.1, i);
      if ES.Find(n.children, q.0).Some? {
        FoundIn(n.children, core.ents.Keys, q.0);
      }
    }
    UpdateWellFormed(core.ents, parent, n.(children := res.1));
    rc := res.0;
    core.ents := core.ents[parent := n.(children := res.1)];
  }

  /** The resolution phase of fskit_rename, in its locking order. */
  method FindParents(core: Core, oldPath: string, newPath: string, user: int, group: int) returns (rc: int, parents: Option<Parents>)
    requires core.Valid()
    ensures (rc, parents) == ResolveParents(core.ents, oldPath, newPath, user, group)
  {
    var od := PathStr.Dirname(oldPath);
    var nd := PathStr.Dirname(newPath);
    var dOld := PathStr.Depth(oldPath);
    var dNew := PathStr.Depth(newPath);
    if dOld > dNew {
      var o := ResolvePath(core, od, user, group, false);
      var n := Outcome(0, None, []);
      if o.err == 0 {
        n := ResolvePath(core, nd, user, group, true);
      }
      rc, parents := Combine(n, o).0, Combine(n, o).1;
    } else if dOld < dNew || od != nd {
      var n := ResolvePath(core, nd, user, group, true);
      var o := ResolvePath(core, od, user, group, false);
      rc, parents := Combine(n, o).0, Combine(n, o).1;
    } else {
      var c := ResolvePath(core, od, user, group, false);
      ResolveOutcome(core.ents, od, user, group, false);
      if c.err != 0 {
        rc, parents := c.err, None;
      } else {
        rc, parents := 0, Some(Common(c.ent.value));
      }
    }
  }

  /** The checks of fskit_rename before the entry tests. */
  method LocateEntries(core: Core, oldPath: string, newPath: string, user: int, group: int) returns (rc: int, plan: Option<Plan>)
    requires core.Valid()
    ensures (rc, plan) == Locate(core.ents, oldPath, newPath, user, group)
  {
    var oldLen := PathStr.BasenameLen(oldPath);
    var newLen := PathStr.BasenameLen(newPath);
    if oldLen > NAMEMAX || newLen > NAMEMAX {
      return -ENAMETOOLONG, None;
    }
    var perr, parents := FindParents(core, oldPath, newPath, user, group);
    if perr != 0 {
      return perr, None;
    }
    var p := parents.value;
    if !MayEdit(core.ents[OldDir(p)], user, group) || !MayEdit(core.ents[NewDir(p)], user, group) {
      return -EACCES, None;
    }
    var oldBase, newBase := PathStr.Basename(oldPath), PathStr.Basename(newPath);
    var newEnt := ES.Find(core.ents[NewDir(p)].children, newBase);
    var oldEnt := ES.Find(core.ents[OldDir(p)].children, oldBase);
    if oldEnt.None? {
      return -ENOENT, None;
    }
    if oldEnt == newEnt {
      return 0, None;
    }
    return 0, Some(Plan(p, oldBase, newBase, oldEnt.value, newEnt));
  }

  /** The checks of fskit_rename, up to the rename route. */
  method CheckRename(core: Core, oldPath: string, newPath: string, user: int, group: int) returns (rc: int, plan: Option<Plan>)
    requires core.Valid()
    ensures (rc, plan) == Prepare(Intended, core.ents, oldPath, newPath, user, group)
  {
    rc, plan := LocateEntries(core, oldPath, newPath, user, group);
    if plan.None? {
      return;
    }
    var pl := plan.value;
    var v := Vet(Intended, core.ents, pl.parents, pl.oldEnt, pl.newEnt);
    if v != 0 {
      return v, None;
    }
  }

  /** The replaced entry's flag, its destruction if unreferenced, and the flag's reset otherwise. */
  method RetireEntry(core: Core, r: Ref, destroyHook: Route.Dispatch)
    requires core.Valid() && r in core.ents
    modifies core
    ensures core.Valid()
    ensures core.ents == Retire(old(core.ents), r, destroyHook)
  {
    ghost var s0 := core.ents;
    var n := core.ents[r];
    assert NodeOk(s0.Keys, n);
    UpdateWellFormed(core.ents, r, n.(deletionThroughRename := true));
    core.ents := core.ents[r := n.(deletionThroughRename := true)];
    ghost var s1 := core.ents;
    var destroyed, _ := core.TryDestroy(r, destroyHook, 0);
    ghost var res := TryDestroyStore(s1, r, destroyHook, 0);
    assert destroyed == res.0 && core.ents == res.2;
    if destroyed == 0 {
      assert NodeOk(s1.Keys, core.ents[r]);
      UpdateWellFormed(core.ents, r, core.ents[r].(deletionThroughRename := false));
      core.ents := core.ents[r := core.ents[r].(deletionThroughRename := false)];
    }
    assert core.ents == (if res.0 == 1 then res.2 else res.2[r := res.2[r].(deletionThroughRename := false)]);
  }

  /** The unlinking half of the commit on the store: old name unbound, the destination's name detached. */
  method ClearNames(core: Core, src: Ref, dst: Ref, oldBase: string, newBase: string, newEnt: Option<Ref>, now: int)
    requires core.Valid() && src in core.ents && dst in core.ents
    modifies core
    ensures core.Valid()
    ensures core.ents == Clear(Intended, old(core.ents), src, dst, oldBase, newBase, newEnt, now)
  {
    var ignored := core.Unbind(src, oldBase, now);
    if newEnt.Some? {
      ignored := core.Detach(dst, newBase, now);
    }
  }

  /** The linking half of the commit on the store: the entry attached under its new name, the replaced one retired. */
  method InstallName(core: Core, dst: Ref, oldEnt: Ref, newBase: string, newEnt: Option<Ref>,
                     destroyHook: Route.Dispatch, now: int)
    requires core.Valid() && dst in core.ents && oldEnt in core.ents && (newEnt.Some? ==> newEnt.value in core.ents)
    modifies core
    ensures core.Valid()
    ensures core.ents == Install(old(core.ents), dst, oldEnt, newBase, newEnt, destroyHook, now)
  {
    var ignored := core.Attach(dst, oldEnt, newBase, now);
    if newEnt.Some? {
      RetireEntry(core, newEnt.value, destroyHook);
    }
  }

  /** The commit of fskit_rename on the store: Commit's effect, under the intended reading. */
  method CommitRename(core: Core, pl: Plan, destroyHook: Route.Dispatch, now: int)
    requires core.Valid() && PlanOk(core.ents, pl)
    modifies core
    ensures core.Valid()
    ensures core.ents == Commit(Intended, old(core.ents), pl.parents, pl.oldBase, pl.newBase, pl.oldEnt, pl.newEnt, destroyHook, now)
  {
    var src, dst := OldDir(pl.parents), NewDir(pl.parents);
    ClearNames(core, src, dst, pl.oldBase, pl.newBase, pl.newEnt, now);
    InstallName(core, dst, pl.oldEnt, pl.newBase, pl.newEnt, destroyHook, now);
  }

  /**
   * fskit_rename: the checks, the rename route, then the commit; its
   * effect on the store is RenameSpec's.
   */
  method Rename(core: Core, oldPath: string, newPath: string, user: int, group: int,
                renameHook: Route.Dispatch, destroyHook: Route.Dispatch, now: int) returns (rc: int)
    requires core.Valid()
    modifies core
    ensures core.Valid()
    ensures (rc, core.ents) == RenameSpec(old(core.ents), oldPath, newPath, user, group, renameHook, destroyHook, now)
  {
    var e, plan := CheckRename(core, oldPath, newPath, user, group);
    if plan.None? {
      return e;
    }
    var h := Route.RunUser(renameHook);
    if h != 0 {
      return h;
    }
    CommitRename(core, plan.value, destroyHook, now);
    return 0;
  }
}
