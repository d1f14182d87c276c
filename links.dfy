// Link counts against names. fskit_detach_all_ex (libfskit/entry.c:664-672)
// drops one link of every entry it dequeues and relies on each one having
// been counted by the attach that bound it. Covered states that for a
// whole store: every entry's link count is at least the number of names
// other than "." and ".." that child sets bind to it (Detach.LinksCover
// with an empty queue). This module shows which operations of the core
// keep it, and which one does not.
module Links {
  import opened Opt
  import opened Errno
  import opened Defs
  import ES = EntrySet
  import X = Xattr
  import A = Assoc
  import Strs
  import PathStr
  import Route
  import opened Entry
  import opened Resolve
  import D = Detach
  import Handle
  import Unlink
  import Rmdir
  import Rename
  import Trunc
  import Chmod
  import Chown

  /** Every entry's link count covers the names other than "." and ".." bound to it. */
  ghost predicate Covered(s: Store)
  {
    D.LinksCover(s, [])
  }

  /** The set a binds each entry at most as often as b does. */
  ghost predicate Fewer(a: ES.Dir, b: ES.Dir)
  {
    forall x :: D.Bound(a, x) <= D.Bound(b, x)
  }

  /** A store with the same keys whose claims on each entry rise no more than its link count keeps the cover. */
  lemma CoverBy(s: Store, t: Store)
    requires Covered(s) && t.Keys == s.Keys
    requires forall x :: x in s ==> D.Claims(t, t.Keys, x) + s[x].linkCount <= D.Claims(s, s.Keys, x) + t[x].linkCount
    ensures Covered(t)
  {
    forall x | x in t
      ensures D.Occ([], x) + D.Bound([], x) + D.Claims(t, t.Keys, x) <= t[x].linkCount
    {
      assert D.Occ([], x) + D.Bound([], x) + D.Claims(s, s.Keys, x) <= s[x].linkCount;
    }
  }

  lemma BoundCons(p: (string, Ref), a: ES.Dir, r: Ref)
    ensures D.Bound([p] + a, r) == (if !D.IsDot(p.0) && p.1 == r then 1 else 0) + D.Bound(a, r)
  {
    assert ([p] + a)[0] == p && ([p] + a)[1..] == a;
  }

  /**
   * Binding n to c in a sorted set: the names bound to r change by the
   * binding gained and the binding n had before, if either is r's.
   */
  lemma {:induction false} BoundInsert(d: ES.Dir, n: string, c: Ref, r: Ref)
    requires ES.Valid(d)
    ensures D.Bound(ES.Insert(d, n, c), r) + (if !D.IsDot(n) && ES.Find(d, n) == Some(r) then 1 else 0)
         == D.Bound(d, r) + (if !D.IsDot(n) && c == r then 1 else 0)
  {
    if |d| == 0 {
      BoundCons((n, c), d, r);
      assert [(n, c)] + d == [(n, c)];
    } else if d[0].0 == n {
      BoundCons((n, c), d[1..], r);
    } else if Strs.StrLess(n, d[0].0) {
      BoundCons((n, c), d, r);
      A.AboveHead(n, d);
      A.AboveFindNone(n, d);
    } else {
      A.SortedSplit(d);
      BoundInsert(d[1..], n, c, r);
      BoundCons(d[0], A.Insert(d[1..], n, c), r);
    }
  }

  /** Deleting n from a set takes away exactly the binding n had, if it was r's. */
  lemma {:induction false} BoundRemove(d: ES.Dir, n: string, r: Ref)
    ensures D.Bound(A.Remove(d, n), r) + (if !D.IsDot(n) && ES.Find(d, n) == Some(r) then 1 else 0) == D.Bound(d, r)
  {
    if |d| > 0 && d[0].0 != n {
      BoundRemove(d[1..], n, r);
      BoundCons(d[0], A.Remove(d[1..], n), r);
    }
  }

  /** One entry's names bound to r are among the store's. */
  lemma ClaimsBound(s: Store, d: Ref, r: Ref)
    requires d in s
    ensures D.Bound(s[d].children, r) <= D.Claims(s, s.Keys, r)
  {
    D.ClaimsSplit(s, s.Keys, d, r);
  }

  /** Replacing one entry by a node with no more names and no fewer links keeps the cover. */
  lemma UpdateCover(s: Store, r: Ref, n: Node)
    requires Covered(s) && r in s
    requires Fewer(n.children, s[r].children) && s[r].linkCount <= n.linkCount
    ensures Covered(s[r := n])
  {
    var t := s[r := n];
    assert t.Keys == s.Keys;
    forall x | x in s
      ensures D.Claims(t, t.Keys, x) + s[x].linkCount <= D.Claims(s, s.Keys, x) + t[x].linkCount
    {
      D.ClaimsUpdate(s, t, r, x);
      assert D.Bound(n.children, x) <= D.Bound(s[r].children, x);
      assert s[x].linkCount <= t[x].linkCount by {
        if x != r {
          assert t[x] == s[x];
        }
      }
    }
    CoverBy(s, t);
  }

  /** A destroyed entry keeps its link count and binds no name it did not. */
  lemma DestroyFewer(n: Node)
    ensures Fewer(Destroy(n).children, n.children) && Destroy(n).linkCount == n.linkCount
  {
    forall x ensures D.Bound(Destroy(n).children, x) <= D.Bound(n.children, x) {
      if n.kind != TYPE_DEAD {
        assert Destroy(n).children == [];
      }
    }
  }

  /** fskit_entry_try_destroy keeps the cover. */
  lemma DestroyCover(s: Store, r: Ref, hook: Route.Dispatch, cbrc: int)
    requires WellFormed(s) && Covered(s) && r in s
    ensures Covered(TryDestroyStore(s, r, hook, cbrc).2)
  {
    if TryDestroyStore(s, r, hook, cbrc).0 == 1 {
      var n := s[r].(openCount := 1);
      DestroyFewer(n);
      UpdateCover(s, r, Destroy(n));
    }
  }

  /**
   * Unbinding a name keeps the cover: the child loses the name and one
   * link, and since the name was counted, the link was there to lose.
   */
  lemma UnbindCover(s: Store, p: Ref, name: string, now: int)
    requires WellFormed(s) && Covered(s) && p in s
    ensures Covered(UnbindStore(s, p, name, now).1)
  {
    if UnbindStore(s, p, name, now).0 == 0 {
      var c := ES.Find(s[p].children, name).value;
      FoundIn(s[p].children, s.Keys, name);
      var t := UnbindFound(s, p, name, c, now);
      assert UnbindStore(s, p, name, now) == (0, t);
      forall x | x in s
        ensures D.Claims(t, t.Keys, x) + s[x].linkCount <= D.Claims(s, s.Keys, x) + t[x].linkCount
      {
        UnbindClaims(s, p, name, c, now, x);
      }
      CoverBy(s, t);
    }
  }

  /** One entry's share of UnbindCover. */
  lemma UnbindClaims(s: Store, p: Ref, name: string, c: Ref, now: int, x: Ref)
    requires WellFormed(s) && Covered(s) && p in s && c in s && c != p && x in s
    requires ES.Find(s[p].children, name) == Some(c) && name != "." && name != ".."
    ensures var t := UnbindFound(s, p, name, c, now);
      D.Claims(t, s.Keys, x) + s[x].linkCount <= D.Claims(s, s.Keys, x) + t[x].linkCount
  {
    var t := UnbindFound(s, p, name, c, now);
    var d := s[p].children;
    assert t[p].children == A.Remove(d, name);
    var s1 := s[p := t[p]];
    D.ClaimsUpdate(s, s1, p, x);
    D.ClaimsFrame(s1, t, t.Keys, x);
    BoundRemove(d, name, x);
    if x == c {
      ClaimsBound(s, p, c);
      assert D.Occ([], c) + D.Bound([], c) + D.Claims(s, s.Keys, c) <= s[c].linkCount;
    }
  }

  /** fskit_entry_detach_lowlevel keeps the cover. */
  lemma DetachCover(s: Store, p: Ref, name: string, now: int)
    requires WellFormed(s) && Covered(s) && p in s
    ensures Covered(DetachStore(s, p, name, now).1)
  {
    if DetachStore(s, p, name, now).0 == 0 {
      UnbindCover(s, p, name, now);
    }
  }

  /** Pointing a directory's ".." elsewhere changes no count of names. */
  lemma ReparentClaims(s: Store, c: Ref, p: Ref, x: Ref)
    requires WellFormed(s) && p in s && c in s
    ensures D.Claims(Reparent(s, c, p), s.Keys, x) == D.Claims(s, s.Keys, x)
  {
    var t := Reparent(s, c, p);
    if s[c].kind == TYPE_DIR {
      D.ClaimsUpdate(s, t, c, x);
      if ES.Find(s[c].children, "..").Some? {
        BoundInsert(s[c].children, "..", p, x);
      }
    }
  }

  /** Binding name to c adds at most one name, and only one bound to c. */
  lemma BindClaims(s: Store, p: Ref, name: string, c: Ref, x: Ref)
    requires WellFormed(s) && p in s && c in s
    ensures D.Claims(Bind(s, p, name, c), s.Keys, x) <= D.Claims(s, s.Keys, x) + (if c == x then 1 else 0)
  {
    D.ClaimsUpdate(s, Bind(s, p, name, c), p, x);
    BoundInsert(s[p].children, name, c, x);
  }

  /**
   * fskit_entry_attach_lowlevel of an entry into another keeps the cover:
   * the one name bound anew comes with one more link, and the ".." it
   * rewrites is not counted.
   */
  lemma AttachCover(s: Store, p: Ref, c: Ref, name: string, now: int)
    requires WellFormed(s) && Covered(s) && p in s && c in s && p != c
    ensures Covered(AttachStore(s, p, c, name, now))
  {
    var t := AttachStore(s, p, c, name, now);
    forall x | x in s
      ensures D.Claims(t, t.Keys, x) + s[x].linkCount <= D.Claims(s, s.Keys, x) + t[x].linkCount
    {
      AttachClaims(s, p, c, name, now, x);
    }
    CoverBy(s, t);
  }

  /** One entry's share of AttachCover. */
  lemma AttachClaims(s: Store, p: Ref, c: Ref, name: string, now: int, x: Ref)
    requires WellFormed(s) && p in s && c in s && p != c && x in s
    ensures var t := AttachStore(s, p, c, name, now);
      D.Claims(t, s.Keys, x) + s[x].linkCount <= D.Claims(s, s.Keys, x) + t[x].linkCount
  {
    var s1 := AttachCounts(s, p, c, now);
    var s2 := Reparent(s1, c, p);
    var t := Bind(s2, p, name, c);
    D.ClaimsFrame(s, s1, s.Keys, x);
    ReparentClaims(s1, c, p, x);
    BindClaims(s2, p, name, c, x);
    AttachLinks(s, p, c, name, now, x);
  }

  /** Attach adds one link, to the child, and only when it is not the parent. */
  lemma AttachLinks(s: Store, p: Ref, c: Ref, name: string, now: int, x: Ref)
    requires WellFormed(s) && p in s && c in s && x in s
    ensures AttachStore(s, p, c, name, now)[x].linkCount
         == s[x].linkCount + (if x == c && p != c then 1 else 0)
  {
    var s1 := AttachCounts(s, p, c, now);
    var s2 := Reparent(s1, c, p);
    assert s2[x].linkCount == s1[x].linkCount;
    if x == c {
    } else if x == p {
    } else {
      assert s1[x] == s[x];
    }
  }

  /**
   * Attaching a directory to itself under a new name binds it once more
   * without a link (the count rises only when parent and child differ), so
   * an entry whose links were all accounted for is no longer covered.
   */
  lemma SelfAttachBreaksCover(s: Store, p: Ref, name: string, now: int)
    requires WellFormed(s) && p in s && !D.IsDot(name) && ES.Find(s[p].children, name).None?
    requires s[p].linkCount == D.Claims(s, s.Keys, p)
    ensures !Covered(AttachStore(s, p, p, name, now))
  {
    var s1 := AttachCounts(s, p, p, now);
    var s2 := Reparent(s1, p, p);
    var t := Bind(s2, p, name, p);
    D.ClaimsFrame(s, s1, s.Keys, p);
    if s1[p].kind == TYPE_DIR {
      D.ClaimsUpdate(s1, s2, p, p);
      if ES.Find(s1[p].children, "..").Some? {
        BoundInsert(s1[p].children, "..", p, p);
        ES.ReplaceSpec(s1[p].children, "..", p);
      }
    }
    D.ClaimsUpdate(s2, t, p, p);
    BoundInsert(s2[p].children, name, p, p);
    assert D.Claims(t, t.Keys, p) == s[p].linkCount + 1 > t[p].linkCount;
  }

  /**
   * fskit_entry_tag_garbage keeps the cover: a directory's set shrinks to
   * "." and "..", which bind nothing that counts, and no count changes.
   */
  lemma TagGarbageCover(s: Store, r: Ref)
    requires WellFormed(s) && Covered(s) && r in s
    ensures Covered(TagGarbageStore(s, r).2)
  {
    var (rc, _, t) := TagGarbageStore(s, r);
    if rc == 0 {
      if s[r].kind == TYPE_DIR {
        assert D.OnlyDots(t[r].children);
        forall x ensures D.Bound(t[r].children, x) <= D.Bound(s[r].children, x) {
          D.OnlyDotsBound(t[r].children, x);
        }
      }
      UpdateCover(s, r, t[r]);
      assert t == s[r := t[r]];
    }
  }

  /** An xattr insert or removal (fskit_xattr_set_insert, fskit_xattr_set_remove) changes no name and no link. */
  lemma XattrCover(s: Store, r: Ref, xs: X.XSet)
    requires Covered(s) && r in s
    ensures Covered(s[r := s[r].(xattrs := xs)])
  {
    UpdateCover(s, r, s[r].(xattrs := xs));
  }

  /** fskit_entry_try_garbage_collect as intended keeps the cover. */
  lemma GarbageCollectCover(s: Store, path: string, parent: Ref, child: Ref, now: int, hook: Route.Dispatch)
    requires WellFormed(s) && Covered(s) && parent in s && child in s
    ensures Covered(TryGarbageCollect(s, path, parent, child, now, hook).1)
    ensures Covered(GarbageCollectStep(s, path, parent, child, now, hook).2)
  {
    var name := PathStr.Basename(path);
    if s[child].deletionInProgress {
      var (drc, s1) := DetachStore(s, parent, name, now);
      DetachCover(s, parent, name, now);
      var rc := if drc == -ENOENT then 0 else if drc < 0 && drc != -ENOTEMPTY then -EIO else drc;
      if rc == 0 {
        DestroyCover(s1, child, hook, 0);
        var (destroyed, _, s2) := TryDestroyStore(s1, child, hook, 0);
        assert GarbageCollectStep(s, path, parent, child, now, hook) == (destroyed, destroyed == 1, s2);
      } else {
        assert GarbageCollectStep(s, path, parent, child, now, hook) == (rc, false, s1);
      }
    }
  }

  /** The as-written second removal of the basename takes away at most a name. */
  lemma RemoveAgainCover(s: Store, parent: Ref, name: string)
    requires WellFormed(s) && Covered(s) && parent in s
    ensures Covered(RemoveAgain(s, parent, name))
  {
    var t := RemoveAgain(s, parent, name);
    if !D.IsDot(name) {
      assert t[parent].children == A.Remove(s[parent].children, name);
      forall x ensures D.Bound(t[parent].children, x) <= D.Bound(s[parent].children, x) {
        BoundRemove(s[parent].children, name, x);
      }
    }
    UpdateCover(s, parent, t[parent]);
    assert t == s[parent := t[parent]];
  }

  /** fskit_entry_try_garbage_collect as written keeps the cover too. */
  lemma GarbageCollectAsWrittenCover(s: Store, path: string, parent: Ref, child: Ref, now: int, hook: Route.Dispatch)
    requires WellFormed(s) && Covered(s) && parent in s && child in s
    ensures Covered(TryGarbageCollectAsWritten(s, path, parent, child, now, hook).1)
  {
    GarbageCollectCover(s, path, parent, child, now, hook);
    var (rc, destroyed, s1) := GarbageCollectStep(s, path, parent, child, now, hook);
    if destroyed {
      RemoveAgainCover(s1, parent, PathStr.Basename(path));
    }
  }

  /** fskit_unlink keeps the cover. */
  lemma UnlinkCover(s: Store, path: string, user: int, group: int,
                    detachHook: Route.Dispatch, destroyHook: Route.Dispatch, now: int)
    requires WellFormed(s) && Covered(s)
    ensures Covered(Unlink.UnlinkSpec(s, path, user, group, detachHook, destroyHook, now).1)
  {
    var name := PathStr.Basename(path);
    var o := ResolveSpec(s, PathStr.DirnameOf(path), user, group, false);
    ResolveOutcome(s, PathStr.DirnameOf(path), user, group, false);
    if |name| <= NAMEMAX && o.err == 0 && s[o.ent.value].kind == TYPE_DIR {
      var parent := o.ent.value;
      var fent := ES.Find(s[parent].children, name);
      if fent.Some? {
        FoundIn(s[parent].children, s.Keys, name);
        var (drc, s1) := DetachStore(s, parent, name, now);
        if drc == 0 || drc == -ENOENT {
          DetachCover(s, parent, name, now);
          DestroyCover(s1, fent.value, destroyHook, 0);
          assert Unlink.UnlinkSpec(s, path, user, group, detachHook, destroyHook, now)
              == (0, TryDestroyStore(s1, fent.value, destroyHook, 0).2);
        }
      }
    }
  }

  /** fskit_rmdir after its length tests keeps the cover. */
  lemma RmdirSanitizedCover(s: Store, p: string, user: int, group: int, destroyHook: Route.Dispatch, now: int)
    requires WellFormed(s) && Covered(s)
    ensures Covered(Rmdir.RmdirSanitized(s, p, user, group, destroyHook, now).1)
  {
    var name := PathStr.Basename(p);
    var o := ResolveSpec(s, PathStr.DirnameOf(p), user, group, false);
    ResolveOutcome(s, PathStr.DirnameOf(p), user, group, false);
    if o.err == 0 && s[o.ent.value].kind == TYPE_DIR {
      var parent := o.ent.value;
      var dent := ES.Find(s[parent].children, name);
      if dent.Some? {
        FoundIn(s[parent].children, s.Keys, name);
        if s[dent.value].kind == TYPE_DIR && ES.Count(s[dent.value].children) <= 2 {
          var (drc, s1) := DetachStore(s, parent, name, now);
          if drc == 0 {
            DetachCover(s, parent, name, now);
            DestroyCover(s1, dent.value, destroyHook, 0);
            assert Rmdir.RmdirSanitized(s, p, user, group, destroyHook, now).1
                == TryDestroyStore(s1, dent.value, destroyHook, 0).2;
          }
        }
      }
    }
  }

  /** fskit_rmdir keeps the cover. */
  lemma RmdirCover(s: Store, path: string, user: int, group: int, destroyHook: Route.Dispatch, now: int)
    requires WellFormed(s) && Covered(s)
    ensures Covered(Rmdir.RmdirSpec(s, path, user, group, destroyHook, now).1)
  {
    RmdirSanitizedCover(s, PathStr.SanitizePath(path), user, group, destroyHook, now);
  }

  /** The truncate continuation touches no name and no link. */
  lemma RunTruncKeeps(n: Node, newSize: int, hook: Route.Dispatch, now: int)
    ensures Trunc.RunTrunc(n, newSize, hook, now).children == n.children
    ensures Trunc.RunTrunc(n, newSize, hook, now).linkCount == n.linkCount
  {
    if hook.Called? {
      var m := Trunc.TruncCont(n, newSize, hook.cbrc, now);
      assert m.(size := n.size, mtime := n.mtime, atime := n.atime).children == m.children;
    }
  }

  /** fskit_trunc keeps the cover. */
  lemma TruncCover(s: Store, path: string, user: int, group: int, newSize: int,
                   hook: Route.Dispatch, destroyHook: Route.Dispatch, now: int)
    requires WellFormed(s) && Covered(s)
    ensures Covered(Trunc.TruncSpec(s, path, user, group, newSize, hook, destroyHook, now).1)
  {
    var o := ResolveSpec(s, path, user, group, false);
    ResolveOutcome(s, path, user, group, false);
    if PathStr.BasenameLenOf(path) <= NAMEMAX && o.err == 0 {
      var r := o.ent.value;
      var n := s[r];
      var closed := Trunc.Released(Trunc.RunTrunc(Trunc.Held(n), newSize, hook, now));
      Trunc.HeldAroundTrunc(n, newSize, hook, now);
      RunTruncKeeps(n, newSize, hook, now);
      assert NodeOk(s.Keys, n);
      UpdateWellFormed(s, r, closed);
      UpdateCover(s, r, closed);
      DestroyCover(s[r := closed], r, destroyHook, 0);
    }
  }

  /** fskit_ftrunc keeps the cover. */
  lemma FTruncCover(s: Store, fh: Handle.FileHandle, newSize: int, hook: Route.Dispatch, now: int)
    requires WellFormed(s) && Covered(s) && fh.ent in s
    ensures Covered(Trunc.FTruncSpec(s, fh, newSize, hook, now).1)
  {
    RunTruncKeeps(s[fh.ent], newSize, hook, now);
    UpdateCover(s, fh.ent, Trunc.RunTrunc(s[fh.ent], newSize, hook, now));
  }

  /** fskit_chmod keeps the cover. */
  lemma ChmodCover(s: Store, path: string, user: int, group: int, mode: Mode)
    requires WellFormed(s) && Covered(s)
    ensures Covered(Chmod.ChmodSpec(s, path, user, group, mode).1)
  {
    Chmod.ChmodOutcome(s, path, user, group, mode);
    var o := ResolveSpec(s, path, user, group, false);
    if o.err == 0 {
      UpdateCover(s, o.ent.value, s[o.ent.value].(mode := mode));
    }
  }

  /** fskit_chown keeps the cover. */
  lemma ChownCover(s: Store, path: string, user: int, group: int, newUser: int, newGroup: int)
    requires WellFormed(s) && Covered(s)
    ensures Covered(Chown.ChownSpec(s, path, user, group, newUser, newGroup).1)
  {
    Chown.ChownOutcome(s, path, user, group, newUser, newGroup);
    var o := ResolveSpec(s, path, user, group, false);
    if o.err == 0 {
      UpdateCover(s, o.ent.value, s[o.ent.value].(owner := newUser, group := newGroup));
    }
  }

  /** fskit_entry_ref keeps the cover. */
  lemma RefCover(s: Store, path: string)
    requires WellFormed(s) && Covered(s)
    ensures Covered(RefStore(s, path).2)
  {
    var (rc, e, _) := RefStore(s, path);
    if rc == 0 {
      UpdateCover(s, e.value, s[e.value].(openCount := s[e.value].openCount + 1));
    }
  }

  /** fskit_entry_unref keeps the cover. */
  lemma UnrefCover(s: Store, r: Ref, hook: Route.Dispatch)
    requires WellFormed(s) && Covered(s) && r in s && s[r].openCount >= 1
    ensures Covered(UnrefStore(s, r, hook).1)
  {
    var n := s[r].(openCount := s[r].openCount - 1);
    UpdateCover(s, r, n);
    if s[r].openCount == 1 && s[r].linkCount == 0 {
      DestroyFewer(s[r]);
      UpdateCover(s, r, Destroy(s[r]));
    }
  }

  /** The replaced entry's retirement keeps the cover. */
  lemma RetireCover(s: Store, r: Ref, hook: Route.Dispatch)
    requires WellFormed(s) && Covered(s) && r in s
    ensures Covered(Rename.Retire(s, r, hook))
  {
    if s[r].linkCount <= 0 && s[r].openCount <= 0 {
      Rename.RetireDestroys(s, r, hook);
      var n := s[r].(deletionThroughRename := true, openCount := 1);
      DestroyFewer(n);
      UpdateCover(s, r, Destroy(n));
    } else {
      Rename.RetireKeeps(s, r, hook);
      UpdateCover(s, r, s[r].(deletionThroughRename := false));
    }
  }

  /** The unlinking half of the commit keeps the cover, under either reading. */
  lemma ClearCover(reading: Rename.Reading, s: Store, src: Ref, dst: Ref, oldBase: string, newBase: string,
                   newEnt: Option<Ref>, now: int)
    requires WellFormed(s) && Covered(s) && src in s && dst in s
    ensures Covered(Rename.Clear(reading, s, src, dst, oldBase, newBase, newEnt, now))
  {
    match reading {
      case AsWritten => DetachCover(s, src, oldBase, now);
      case Intended => UnbindCover(s, src, oldBase, now);
    }
    if newEnt.Some? {
      DetachCover(Rename.DetachOld(reading, s, src, oldBase, now), dst, newBase, now);
    }
  }

  /** The linking half of the commit keeps the cover unless it puts the entry into its own child set. */
  lemma InstallCover(s: Store, dst: Ref, oldEnt: Ref, newBase: string, newEnt: Option<Ref>,
                     hook: Route.Dispatch, now: int)
    requires WellFormed(s) && Covered(s) && dst in s && oldEnt in s && (newEnt.Some? ==> newEnt.value in s)
    requires dst != oldEnt
    ensures Covered(Rename.Install(s, dst, oldEnt, newBase, newEnt, hook, now))
  {
    AttachCover(s, dst, oldEnt, newBase, now);
    if newEnt.Some? {
      RetireCover(AttachStore(s, dst, oldEnt, newBase, now), newEnt.value, hook);
    }
  }

  /** The rename's plan moves an entry into its own child set, as rename("/a", "/a/b") does. */
  ghost predicate IntoItself(reading: Rename.Reading, s: Store, oldPath: string, newPath: string, user: int, group: int)
    requires WellFormed(s)
  {
    var pl := Rename.Prepare(reading, s, oldPath, newPath, user, group).1;
    pl.Some? && pl.value.oldEnt == Rename.NewDir(pl.value.parents)
  }

  /**
   * Under the intended loop test an entry is moved into itself only
   * within a common parent, by an old basename that the parent binds to
   * itself (as "." does): a separately resolved new parent that is the
   * moved entry is refused.
   */
  lemma IntendedIntoItselfCommon(s: Store, oldPath: string, newPath: string, user: int, group: int)
    requires WellFormed(s)
    ensures IntoItself(Rename.Intended, s, oldPath, newPath, user, group) ==>
              var pl := Rename.Prepare(Rename.Intended, s, oldPath, newPath, user, group).1.value;
              pl.parents.Common? && ES.Find(s[pl.parents.dir].children, pl.oldBase) == Some(pl.parents.dir)
  {
    var names := Resolve.Names(PathStr.DirnameOf(newPath));
    assert names[..|names|] == names;
    Rename.BelowItselfRefused(s, oldPath, newPath, user, group, Route.NoRoute, Route.NoRoute, 0, |names|);
  }

  /**
   * fskit_rename keeps the cover under either reading, the crowded
   * directory's as written included (its old name stays, and so does the
   * link that name was counted by), unless it moves an entry into itself.
   */
  lemma RenameCover(reading: Rename.Reading, s: Store, oldPath: string, newPath: string, user: int, group: int,
                    renameHook: Route.Dispatch, destroyHook: Route.Dispatch, now: int)
    requires WellFormed(s) && Covered(s)
    requires !IntoItself(reading, s, oldPath, newPath, user, group)
    ensures Covered(Rename.RenameWith(reading, s, oldPath, newPath, user, group, renameHook, destroyHook, now).1)
  {
    var plan := Rename.Prepare(reading, s, oldPath, newPath, user, group).1;
    if plan.Some? && Route.RunUser(renameHook) == 0 {
      var pl := plan.value;
      var src, dst := Rename.OldDir(pl.parents), Rename.NewDir(pl.parents);
      ClearCover(reading, s, src, dst, pl.oldBase, pl.newBase, pl.newEnt, now);
      InstallCover(Rename.Clear(reading, s, src, dst, pl.oldBase, pl.newBase, pl.newEnt, now),
                   dst, pl.oldEnt, pl.newBase, pl.newEnt, destroyHook, now);
    }
  }
}
