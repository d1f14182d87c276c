// Path resolution (fskit_entry_resolve_path_cls, libfskit/path.c:290-493)
// and the open-count references of libfskit/path.c:796-863.
module Resolve {
  import opened Opt
  import opened Errno
  import opened Defs
  import opened Strs
  import PathStr
  import ES = EntrySet
  import Route
  import opened Entry

  /**
   * What a resolution yields: the status (*err), the entry (NULL unless
   * the status is 0) and, when the walk collects file ids, the ids of the
   * entries it passed, root first.
   */
  datatype Outcome = Outcome(err: int, ent: Option<Ref>, ids: seq<nat>)

  /** names without its "." tokens, in order. */
  function NonDot(names: seq<string>): (r: seq<string>)
    ensures forall n :: n in r ==> n in names && n != "."
  {
    if |names| == 0 then []
    else (if names[0] == "." then [] else [names[0]]) + NonDot(names[1..])
  }

  lemma {:induction false} NonDotConcat(x: seq<string>, y: seq<string>)
    ensures NonDot(x + y) == NonDot(x) + NonDot(y)
  {
    if |x| > 0 {
      assert (x + y)[1..] == x[1..] + y;
      NonDotConcat(x[1..], y);
    } else {
      assert x + y == y;
    }
  }

  /**
   * The names the walk visits: a path ending in '/' gets "." appended,
   * the result is split at '/' as strtok does, and "." tokens are skipped.
   */
  function Names(path: string): seq<string>
  {
    var fpath := if |path| > 0 && path[|path| - 1] == '/' then PathStr.FullPath(path, ".") else path;
    NonDot(Fields(fpath, PathStr.SLASH))
  }

  /** The "." appended to a trailing '/' is skipped again: the names are the path's non-"." components. */
  lemma NamesAreComponents(path: string)
    ensures Names(path) == NonDot(Fields(path, PathStr.SLASH))
  {
    if |path| > 0 && path[|path| - 1] == '/' {
      assert PathStr.FullPath(path, ".") == path + ".";
      FieldsConcat(path, ".", PathStr.SLASH);
      assert Fields(".", PathStr.SLASH) == ["."] by {
        assert RunLen(".", PathStr.SLASH) == 1 by {
          RunLenIs(".", PathStr.SLASH, 1);
        }
        assert "."[1..] == "";
      }
      NonDotConcat(Fields(path, PathStr.SLASH), ["."]);
    }
  }

  /** A trailing '/' does not change what a path names. */
  lemma TrailingSlashIgnored(path: string)
    ensures Names(path + "/") == Names(path)
  {
    NamesAreComponents(path + "/");
    NamesAreComponents(path);
    FieldsConcat(path, "/", PathStr.SLASH);
    assert Fields("/", PathStr.SLASH) == [] by {
      assert "/"[1..] == "";
    }
    assert Fields(path, PathStr.SLASH) + [] == Fields(path, PathStr.SLASH);
  }

  /** A "." component is skipped: a + "/." + b names what a + b names, b empty or starting with '/'. */
  lemma DotComponentSkipped(a: string, b: string)
    requires |b| == 0 || b[0] == '/'
    ensures Names(a + "/." + b) == Names(a + b)
  {
    var S := PathStr.SLASH;
    var fa, fb := Fields(a, S), Fields(b, S);
    assert a + "/." + b == (a + "/") + ("." + b);
    FieldsConcat(a + "/", "." + b, S);
    TrailingSlashFields(a);
    DotFields(b);
    assert Fields(a + "/." + b, S) == fa + (["."] + fb);
    NonDotConcat(fa, ["."] + fb);
    NonDotConcat(["."], fb);
    assert NonDot(["."]) == [];
    assert NonDot(["."] + fb) == NonDot(fb);
    FieldsConcat(a, b, S);
    NonDotConcat(fa, fb);
    NamesAreComponents(a + "/." + b);
    NamesAreComponents(a + b);
  }

  /** A trailing '/' adds no component. */
  lemma TrailingSlashFields(a: string)
    ensures Fields(a + "/", PathStr.SLASH) == Fields(a, PathStr.SLASH)
  {
    FieldsConcat(a, "/", PathStr.SLASH);
    assert Fields("/", PathStr.SLASH) == [] by {
      assert "/"[1..] == "";
    }
  }

  /** A leading "." ended by '/' or the end is a component of its own. */
  lemma DotFields(b: string)
    requires |b| == 0 || b[0] == '/'
    ensures Fields("." + b, PathStr.SLASH) == ["."] + Fields(b, PathStr.SLASH)
  {
    RunLenIs("." + b, PathStr.SLASH, 1);
    assert ("." + b)[..1] == ".";
    assert ("." + b)[1..] == b;
  }

  /** An entry the walk treats as gone: DEAD, or marked for deletion. */
  predicate Gone(n: Node)
  {
    n.deletionInProgress || n.kind == TYPE_DEAD
  }

  /**
   * The inode accumulator of fskit_rename (rename.c:68-114) as its
   * comments describe it: -EINVAL for an id already collected (a path
   * loop), otherwise the id joins the collection. CollectAsWritten is the
   * code as written.
   */
  function Collect(ids: seq<nat>, fileId: nat): (r: (int, seq<nat>))
    ensures r.0 == 0 <==> fileId !in ids
    ensures r.0 == 0 ==> r.1 == ids + [fileId]
    ensures r.0 != 0 ==> r == (-EINVAL, ids)
  {
    if fileId in ids then (-EINVAL, ids) else (0, ids + [fileId])
  }

  /**
   * The same accumulator as rename.c:72-116 is written, over the ids its
   * members hold. The first call creates the set and looks nothing up;
   * every later call looks the entry's id up; a hit exits the process
   * (None). The member it adds never gets the entry's id (it stays 0 from
   * the allocation).
   */
  function CollectAsWritten(stored: seq<nat>, fileId: nat): (r: Option<seq<nat>>)
    ensures r.Some? ==> |r.value| == |stored| + 1 && r.value[..|stored|] == stored
  {
    if |stored| > 0 && fileId in stored then None else Some(stored + [0])
  }

  /**
   * Since every stored id is 0, the accumulator as written exits exactly
   * on an id-0 entry after the first, and lets every other id through,
   * repeated or not.
   */
  lemma {:induction false} CollectAsWrittenZeros(stored: seq<nat>, fileId: nat)
    requires forall i :: 0 <= i < |stored| ==> stored[i] == 0
    ensures CollectAsWritten(stored, fileId).None? <==> |stored| > 0 && fileId == 0
    ensures CollectAsWritten(stored, fileId).Some? ==>
      forall i :: 0 <= i < |stored| + 1 ==> CollectAsWritten(stored, fileId).value[i] == 0
  {
    if |stored| > 0 && fileId == 0 {
      assert stored[0] == fileId;
    }
  }

  /**
   * A repeated id 5 is refused by Collect and passes as written; an id 0
   * after an id 5 passes Collect and exits as written.
   */
  lemma CollectAsWrittenDiffers()
    ensures Collect(Collect([], 5).1, 5).0 == -EINVAL
    ensures CollectAsWritten(CollectAsWritten([], 5).value, 5).Some?
    ensures Collect(Collect([], 5).1, 0).0 == 0
    ensures CollectAsWritten(CollectAsWritten([], 5).value, 0).None?
  {
    assert Collect([], 5).1 == [5];
    assert CollectAsWritten([], 5).value == [0];
  }

  /**
   * The resolution loop from entry cur with the names still to visit: a
   * non-directory with names left is -ENOTDIR (-ENOENT when DEAD); a
   * directory the caller may not search is -EACCES; no names left is
   * success; otherwise the next name must find a live child, which is
   * evaluated and must still have a link.
   */
  function Walk(s: Store, cur: Ref, names: seq<string>, user: int, group: int, collect: bool, ids: seq<nat>): (o: Outcome)
    requires WellFormed(s) && cur in s
    decreases |names|
  {
    var n := s[cur];
    if |names| > 0 && n.kind != TYPE_DIR then
      Outcome(if n.kind == TYPE_DEAD then -ENOENT else -ENOTDIR, None, ids)
    else if n.kind == TYPE_DIR && !IsDirSearchable(n.mode, n.owner, n.group, user, group) then
      Outcome(-EACCES, None, ids)
    else if |names| == 0 then Outcome(0, Some(cur), ids)
    else
      var next := ES.Find(n.children, names[0]);
      if next.None? then Outcome(-ENOENT, None, ids)
      else
        FoundIn(n.children, s.Keys, names[0]);
        var c := s[next.value];
        if Gone(c) then Outcome(-ENOENT, None, ids)
        else
          var (erc, ids1) := if collect then Collect(ids, c.fileId) else (0, ids);
          if erc != 0 then Outcome(erc, None, ids1)
          else if c.linkCount == 0 || Gone(c) then Outcome(-ENOENT, None, ids1)
          else Walk(s, next.value, names[1..], user, group, collect, ids1)
  }

  /**
   * fskit_entry_resolve_path_cls with uid user and gid group, collecting
   * file ids when collect holds. An empty path is -EINVAL. A root that is
   * not a live directory gives NULL from fskit_core_resolve_root, which
   * the C then dereferences; the model answers -ENOENT there.
   */
  function ResolveSpec(s: Store, path: string, user: int, group: int, collect: bool): (o: Outcome)
    requires WellFormed(s)
  {
    var root := s[ROOT];
    if |path| == 0 then Outcome(-EINVAL, None, [])
    else if root.kind != TYPE_DIR || root.deletionInProgress then Outcome(-ENOENT, None, [])
    else if root.linkCount == 0 || root.kind == TYPE_DEAD then Outcome(-ENOENT, None, [])
    else
      var ids := if collect then [root.fileId] else [];
      Walk(s, ROOT, Names(path), user, group, collect, ids)
  }

  /** The plain lookup chain from cur: each name found in the previous entry's set. */
  function LookupPath(s: Store, cur: Ref, names: seq<string>): Option<Ref>
    requires WellFormed(s) && cur in s
    decreases |names|
  {
    if |names| == 0 then Some(cur)
    else
      var next := ES.Find(s[cur].children, names[0]);
      if next.None? then None
      else
        FoundIn(s[cur].children, s.Keys, names[0]);
        LookupPath(s, next.value, names[1..])
  }

  /** The file ids of the entries the lookup chain passes after cur. */
  function ChainIds(s: Store, cur: Ref, names: seq<string>): seq<nat>
    requires WellFormed(s) && cur in s
    decreases |names|
  {
    if |names| == 0 then []
    else
      var next := ES.Find(s[cur].children, names[0]);
      if next.None? then []
      else
        FoundIn(s[cur].children, s.Keys, names[0]);
        [s[next.value].fileId] + ChainIds(s, next.value, names[1..])
  }

  /**
   * An entry the lookup reaches on a prefix of the names is the start or
   * one of the entries the whole chain passes: its file id is among the
   * start's and the chain's ids.
   */
  lemma {:induction false} PrefixIdOnChain(s: Store, cur: Ref, names: seq<string>, k: nat, d: Ref)
    requires WellFormed(s) && cur in s && k <= |names|
    requires LookupPath(s, cur, names[..k]) == Some(d)
    ensures d in s && s[d].fileId in [s[cur].fileId] + ChainIds(s, cur, names)
    decreases k
  {
    if k == 0 {
      assert d == cur;
    } else {
      var next := ES.Find(s[cur].children, names[0]);
      assert names[..k][0] == names[0] && names[..k][1..] == names[1..][..k - 1];
      FoundIn(s[cur].children, s.Keys, names[0]);
      PrefixIdOnChain(s, next.value, names[1..], k - 1, d);
    }
  }

  /**
   * What the walk can answer: one of five statuses; success exactly when
   * an entry comes back, and that entry is the plain lookup's, is live and
   * still linked (or is where the walk began); the collected ids are the
   * chain's ids, none repeated.
   */
  lemma WalkOutcome(s: Store, cur: Ref, names: seq<string>, user: int, group: int, collect: bool, ids: seq<nat>)
    requires WellFormed(s) && cur in s
    ensures var o := Walk(s, cur, names, user, group, collect, ids);
      && o.err in {0, -ENOENT, -ENOTDIR, -EACCES, -EINVAL}
      && (o.err == 0 <==> o.ent.Some?)
      && (o.err == -EINVAL ==> collect)
      && (o.ent.Some? ==> o.ent == LookupPath(s, cur, names) && o.ent.value in s)
      && (o.ent.Some? && o.ent.value != cur ==> !Gone(s[o.ent.value]) && s[o.ent.value].linkCount > 0)
      && (o.ent.Some? && collect ==> o.ids == ids + ChainIds(s, cur, names))
      && (o.ent.Some? && !collect ==> o.ids == ids)
  {
    WalkStatus(s, cur, names, user, group, collect, ids);
    WalkFound(s, cur, names, user, group, collect, ids);
    WalkFoundLive(s, cur, names, user, group, collect, ids);
    WalkFoundIds(s, cur, names, user, group, collect, ids);
  }

  /** The status half of WalkOutcome. */
  lemma {:induction false} WalkStatus(s: Store, cur: Ref, names: seq<string>, user: int, group: int, collect: bool, ids: seq<nat>)
    requires WellFormed(s) && cur in s
    ensures var o := Walk(s, cur, names, user, group, collect, ids);
      && o.err in {0, -ENOENT, -ENOTDIR, -EACCES, -EINVAL}
      && (o.err == 0 <==> o.ent.Some?)
      && (o.err == -EINVAL ==> collect)
    decreases |names|
  {
    var n := s[cur];
    if |names| > 0 && n.kind == TYPE_DIR && IsDirSearchable(n.mode, n.owner, n.group, user, group) {
      var next := ES.Find(n.children, names[0]);
      if next.Some? {
        FoundIn(n.children, s.Keys, names[0]);
        var c := s[next.value];
        if !Gone(c) {
          var (erc, ids1) := if collect then Collect(ids, c.fileId) else (0, ids);
          if erc == 0 && c.linkCount != 0 {
            WalkStatus(s, next.value, names[1..], user, group, collect, ids1);
            assert Walk(s, cur, names, user, group, collect, ids) == Walk(s, next.value, names[1..], user, group, collect, ids1);
          } else {
            assert erc != 0 ==> collect;
          }
        }
      }
    }
  }

  /** Regrouping one collected id. */
  lemma IdsAssoc(ids: seq<nat>, x: nat, chain: seq<nat>)
    ensures (ids + [x]) + chain == ids + ([x] + chain)
  {
  }

  /** The entry found is the plain lookup's. */
  lemma {:induction false} WalkFound(s: Store, cur: Ref, names: seq<string>, user: int, group: int, collect: bool, ids: seq<nat>)
    requires WellFormed(s) && cur in s
    ensures var o := Walk(s, cur, names, user, group, collect, ids);
      o.ent.Some? ==> o.ent == LookupPath(s, cur, names) && o.ent.value in s
    decreases |names|
  {
    var n := s[cur];
    if |names| > 0 && n.kind == TYPE_DIR && IsDirSearchable(n.mode, n.owner, n.group, user, group) {
      var next := ES.Find(n.children, names[0]);
      if next.Some? {
        FoundIn(n.children, s.Keys, names[0]);
        var c := s[next.value];
        if !Gone(c) {
          var (erc, ids1) := if collect then Collect(ids, c.fileId) else (0, ids);
          if erc == 0 && c.linkCount != 0 {
            WalkFound(s, next.value, names[1..], user, group, collect, ids1);
            var o := Walk(s, next.value, names[1..], user, group, collect, ids1);
            assert Walk(s, cur, names, user, group, collect, ids) == o;
            assert LookupPath(s, cur, names) == LookupPath(s, next.value, names[1..]);
          }
        }
      }
    }
  }

  /** An entry found below the start is live and still linked. */
  lemma {:induction false} WalkFoundLive(s: Store, cur: Ref, names: seq<string>, user: int, group: int, collect: bool, ids: seq<nat>)
    requires WellFormed(s) && cur in s
    ensures var o := Walk(s, cur, names, user, group, collect, ids);
      o.ent.Some? && o.ent.value != cur ==> o.ent.value in s && !Gone(s[o.ent.value]) && s[o.ent.value].linkCount > 0
    decreases |names|
  {
    var n := s[cur];
    if |names| > 0 && n.kind == TYPE_DIR && IsDirSearchable(n.mode, n.owner, n.group, user, group) {
      var next := ES.Find(n.children, names[0]);
      if next.Some? {
        FoundIn(n.children, s.Keys, names[0]);
        var c := s[next.value];
        if !Gone(c) {
          var (erc, ids1) := if collect then Collect(ids, c.fileId) else (0, ids);
          if erc == 0 && c.linkCount != 0 {
            WalkFoundLive(s, next.value, names[1..], user, group, collect, ids1);
            var o := Walk(s, next.value, names[1..], user, group, collect, ids1);
            assert Walk(s, cur, names, user, group, collect, ids) == o;
            if o.ent.Some? && o.ent.value == next.value {
              assert !Gone(s[o.ent.value]) && s[o.ent.value].linkCount > 0;
            }
          }
        }
      }
    }
  }

  /** On success the collected ids extend ids by the chain's ids, and stay ids without collecting. */
  lemma {:induction false} WalkFoundIds(s: Store, cur: Ref, names: seq<string>, user: int, group: int, collect: bool, ids: seq<nat>)
    requires WellFormed(s) && cur in s
    ensures var o := Walk(s, cur, names, user, group, collect, ids);
      && (o.ent.Some? && collect ==> o.ids == ids + ChainIds(s, cur, names))
      && (o.ent.Some? && !collect ==> o.ids == ids)
    decreases |names|
  {
    var n := s[cur];
    if |names| > 0 && n.kind == TYPE_DIR && IsDirSearchable(n.mode, n.owner, n.group, user, group) {
      var next := ES.Find(n.children, names[0]);
      if next.Some? {
        FoundIn(n.children, s.Keys, names[0]);
        var c := s[next.value];
        if !Gone(c) {
          var (erc, ids1) := if collect then Collect(ids, c.fileId) else (0, ids);
          if erc == 0 && c.linkCount != 0 {
            WalkFoundIds(s, next.value, names[1..], user, group, collect, ids1);
            var o := Walk(s, next.value, names[1..], user, group, collect, ids1);
            assert Walk(s, cur, names, user, group, collect, ids) == o;
            if o.ent.Some? && collect {
              var chain := ChainIds(s, next.value, names[1..]);
              assert ids1 == ids + [c.fileId];
              assert ChainIds(s, cur, names) == [c.fileId] + chain;
              assert o.ids == ids1 + chain;
              IdsAssoc(ids, c.fileId, chain);
            }
          }
        }
      }
    }
  }

  /** Every id the accumulating walk collects is distinct. */
  lemma {:induction false} WalkIdsDistinct(s: Store, cur: Ref, names: seq<string>, user: int, group: int, ids: seq<nat>)
    requires WellFormed(s) && cur in s
    requires forall i, j :: 0 <= i < j < |ids| ==> ids[i] != ids[j]
    ensures var o := Walk(s, cur, names, user, group, true, ids);
      o.err == 0 ==> forall i, j :: 0 <= i < j < |o.ids| ==> o.ids[i] != o.ids[j]
    decreases |names|
  {
    var n := s[cur];
    if |names| > 0 && n.kind == TYPE_DIR && IsDirSearchable(n.mode, n.owner, n.group, user, group) {
      var next := ES.Find(n.children, names[0]);
      if next.Some? {
        FoundIn(n.children, s.Keys, names[0]);
        var c := s[next.value];
        if !Gone(c) && c.fileId !in ids && c.linkCount != 0 {
          var ids1 := ids + [c.fileId];
          forall i, j | 0 <= i < j < |ids1| ensures ids1[i] != ids1[j] {
            if j == |ids| {
              assert ids1[i] == ids[i];
            }
          }
          WalkIdsDistinct(s, next.value, names[1..], user, group, ids1);
        }
      }
    }
  }

  /** Only the search test reads the caller: a walk that is not refused answers the same for uid 0. */
  lemma {:induction false} WalkUserOnlyForSearch(s: Store, cur: Ref, names: seq<string>, user: int, group: int, group0: int, collect: bool, ids: seq<nat>)
    requires WellFormed(s) && cur in s
    requires Walk(s, cur, names, user, group, collect, ids).err != -EACCES
    ensures Walk(s, cur, names, ROOT_USER_ID, group0, collect, ids) == Walk(s, cur, names, user, group, collect, ids)
    decreases |names|
  {
    var n := s[cur];
    RootPassesAll(n.mode, n.owner, n.group, group0);
    if |names| > 0 && n.kind == TYPE_DIR {
      var next := ES.Find(n.children, names[0]);
      if next.Some? {
        FoundIn(n.children, s.Keys, names[0]);
        var c := s[next.value];
        var (erc, ids1) := if collect then Collect(ids, c.fileId) else (0, ids);
        if !Gone(c) && erc == 0 && c.linkCount != 0 {
          WalkUserOnlyForSearch(s, next.value, names[1..], user, group, group0, collect, ids1);
        }
      }
    }
  }

  /** uid 0 is never refused a search. */
  lemma {:induction false} RootNeverRefused(s: Store, cur: Ref, names: seq<string>, group: int, collect: bool, ids: seq<nat>)
    requires WellFormed(s) && cur in s
    ensures Walk(s, cur, names, ROOT_USER_ID, group, collect, ids).err != -EACCES
    decreases |names|
  {
    var n := s[cur];
    RootPassesAll(n.mode, n.owner, n.group, group);
    if |names| > 0 && n.kind == TYPE_DIR {
      var next := ES.Find(n.children, names[0]);
      if next.Some? {
        FoundIn(n.children, s.Keys, names[0]);
        var c := s[next.value];
        var (erc, ids1) := if collect then Collect(ids, c.fileId) else (0, ids);
        if !Gone(c) && erc == 0 && c.linkCount != 0 {
          RootNeverRefused(s, next.value, names[1..], group, collect, ids1);
        }
      }
    }
  }

  /** b is a with at most its mode, owner and group changed: the fields only the search test reads. */
  ghost predicate SameButPermissions(a: Node, b: Node)
  {
    b == a.(mode := b.mode, owner := b.owner, group := b.group)
  }

  /**
   * uid 0 passes every search test, so its walk does not depend on any
   * entry's mode, owner or group.
   */
  lemma {:induction false} RootWalkIgnoresPermissions(s: Store, r: Ref, b: Node, cur: Ref, names: seq<string>,
                                                      group: int, collect: bool, ids: seq<nat>)
    requires WellFormed(s) && r in s && cur in s && SameButPermissions(s[r], b)
    ensures WellFormed(s[r := b])
    ensures Walk(s[r := b], cur, names, ROOT_USER_ID, group, collect, ids) == Walk(s, cur, names, ROOT_USER_ID, group, collect, ids)
    decreases |names|
  {
    var s' := s[r := b];
    assert NodeOk(s.Keys, s[r]);
    UpdateWellFormed(s, r, b);
    var n, n' := s[cur], s'[cur];
    RootPassesAll(n.mode, n.owner, n.group, group);
    RootPassesAll(n'.mode, n'.owner, n'.group, group);
    if |names| > 0 && n.kind == TYPE_DIR {
      var next := ES.Find(n.children, names[0]);
      if next.Some? {
        FoundIn(n.children, s.Keys, names[0]);
        var c := s[next.value];
        var (erc, ids1) := if collect then Collect(ids, c.fileId) else (0, ids);
        if !Gone(c) && erc == 0 && c.linkCount != 0 {
          RootWalkIgnoresPermissions(s, r, b, next.value, names[1..], group, collect, ids1);
        }
      }
    }
  }

  /** A resolution that is not refused a search finds what uid 0 finds. */
  lemma RootResolvesAsUser(s: Store, path: string, user: int, group: int, group0: int, collect: bool)
    requires WellFormed(s) && ResolveSpec(s, path, user, group, collect).err != -EACCES
    ensures ResolveSpec(s, path, ROOT_USER_ID, group0, collect) == ResolveSpec(s, path, user, group, collect)
  {
    var root := s[ROOT];
    if |path| > 0 && root.kind == TYPE_DIR && !root.deletionInProgress && root.linkCount != 0 {
      var ids := if collect then [root.fileId] else [];
      WalkUserOnlyForSearch(s, ROOT, Names(path), user, group, group0, collect, ids);
    }
  }

  /** Resolution as uid 0 does not depend on any entry's mode, owner or group. */
  lemma RootResolveIgnoresPermissions(s: Store, r: Ref, b: Node, path: string, group: int, collect: bool)
    requires WellFormed(s) && r in s && SameButPermissions(s[r], b)
    ensures WellFormed(s[r := b])
    ensures ResolveSpec(s[r := b], path, ROOT_USER_ID, group, collect) == ResolveSpec(s, path, ROOT_USER_ID, group, collect)
  {
    var root := s[ROOT];
    RootWalkIgnoresPermissions(s, r, b, ROOT, Names(path), group, collect, if collect then [root.fileId] else []);
  }

  /**
   * Resolution outcomes: an empty path is -EINVAL; otherwise the status is
   * one of 0, -ENOENT, -ENOTDIR, -EACCES (and -EINVAL for a collected id
   * seen twice); success returns the entry the plain lookup of the path's
   * non-"." components reaches, which is live and linked.
   */
  lemma ResolveOutcome(s: Store, path: string, user: int, group: int, collect: bool)
    requires WellFormed(s)
    ensures var o := ResolveSpec(s, path, user, group, collect);
      && (|path| == 0 ==> o.err == -EINVAL && o.ent == None)
      && o.err in {0, -ENOENT, -ENOTDIR, -EACCES, -EINVAL}
      && (o.err == 0 <==> o.ent.Some?)
      && (o.ent.Some? ==> o.ent == LookupPath(s, ROOT, Names(path)))
      && (o.ent.Some? ==> o.ent.value in s && !Gone(s[o.ent.value]) && s[o.ent.value].linkCount > 0)
      && (o.ent.Some? && collect ==> o.ids == [s[ROOT].fileId] + ChainIds(s, ROOT, Names(path)))
  {
    var root := s[ROOT];
    if |path| > 0 && root.kind == TYPE_DIR && !root.deletionInProgress && root.linkCount != 0 {
      var ids := if collect then [root.fileId] else [];
      WalkOutcome(s, ROOT, Names(path), user, group, collect, ids);
    }
  }

  /**
   * The walk of fskit_entry_resolve_path_cls: from the root, one name at a
   * time, with the checks of Walk at each step.
   */
  method ResolvePath(core: Core, path: string, user: int, group: int, collect: bool) returns (o: Outcome)
    requires core.Valid()
    ensures o == ResolveSpec(core.ents, path, user, group, collect)
  {
    var s := core.ents;
    if |path| == 0 {
      return Outcome(-EINVAL, None, []);
    }
    var names := Names(path);
    var root := s[ROOT];
    if root.kind != TYPE_DIR || root.deletionInProgress || root.linkCount == 0 || root.kind == TYPE_DEAD {
      return Outcome(-ENOENT, None, []);
    }
    var ids := if collect then [root.fileId] else [];
    var cur := ROOT;
    var i := 0;
    while true
      invariant 0 <= i <= |names| && cur in s
      invariant Walk(s, cur, names[i..], user, group, collect, ids) == ResolveSpec(s, path, user, group, collect)
      decreases |names| - i
    {
      var n := s[cur];
      if i < |names| && n.kind != TYPE_DIR {
        return Outcome(if n.kind == TYPE_DEAD then -ENOENT else -ENOTDIR, None, ids);
      }
      if n.kind == TYPE_DIR && !IsDirSearchable(n.mode, n.owner, n.group, user, group) {
        return Outcome(-EACCES, None, ids);
      }
      if i == |names| {
        return Outcome(0, Some(cur), ids);
      }
      assert names[i..][0] == names[i] && names[i..][1..] == names[i + 1..];
      var next := ES.Find(n.children, names[i]);
      if next.None? {
        return Outcome(-ENOENT, None, ids);
      }
      FoundIn(n.children, s.Keys, names[i]);
      if Gone(s[next.value]) {
        return Outcome(-ENOENT, None, ids);
      }
      var c := s[next.value];
      if collect {
        var (erc, ids1) := Collect(ids, c.fileId);
        if erc != 0 {
          return Outcome(erc, None, ids1);
        }
        ids := ids1;
      }
      if c.linkCount == 0 || Gone(c) {
        return Outcome(-ENOENT, None, ids);
      }
      cur := next.value;
      i := i + 1;
    }
  }

  /** fskit_entry_ref: resolve as uid 0, gid 0, and count one more open. */
  function RefStore(s: Store, path: string): (res: (int, Option<Ref>, Store))
    requires WellFormed(s)
    ensures WellFormed(res.2) && res.2.Keys == s.Keys
    ensures res.0 != 0 ==> res.1 == None && res.2 == s
    ensures res.0 == 0 ==> res.1.Some? && res.1.value in s
    ensures res.0 == 0 ==> res.2 == s[res.1.value := s[res.1.value].(openCount := s[res.1.value].openCount + 1)]
    ensures res.0 == ResolveSpec(s, path, ROOT_USER_ID, 0, false).err
  {
    var o := ResolveSpec(s, path, ROOT_USER_ID, 0, false);
    ResolveOutcome(s, path, ROOT_USER_ID, 0, false);
    if o.err != 0 then (o.err, None, s)
    else
      var r := o.ent.value;
      UpdateWellFormed(s, r, s[r].(openCount := s[r].openCount + 1));
      (0, Some(r), s[r := s[r].(openCount := s[r].openCount + 1)])
  }

  /**
   * fskit_entry_unref: count one open less, and when neither links nor
   * opens remain, try to destroy the entry (running its destroy route,
   * whose status is discarded). The result is always 0.
   */
  function UnrefStore(s: Store, r: Ref, hook: Route.Dispatch): (res: (int, Store))
    requires WellFormed(s) && r in s && s[r].openCount >= 1
    ensures WellFormed(res.1) && res.1.Keys == s.Keys && res.0 == 0
    ensures s[r].openCount > 1 || s[r].linkCount > 0 ==>
              res.1 == s[r := s[r].(openCount := s[r].openCount - 1)]
    ensures s[r].openCount == 1 && s[r].linkCount == 0 ==>
              res.1 == s[r := Destroy(s[r])] && res.1[r].kind == TYPE_DEAD
  {
    var n := s[r].(openCount := s[r].openCount - 1);
    assert NodeOk(s.Keys, s[r]);
    UpdateWellFormed(s, r, n);
    var s1 := s[r := n];
    if n.openCount <= 0 && n.linkCount <= 0 then
      var (_, _, s2) := TryDestroyStore(s1, r, hook, 0);
      assert n.(openCount := 1) == s[r];
      assert s2 == s1[r := Destroy(s[r])];
      UpdateOver(s, r, n, Destroy(s[r]));
      (0, s2)
    else (0, s1)
  }

  /** A reference taken and dropped on a linked entry leaves the store as it was. */
  lemma RefUnrefRoundTrip(s: Store, path: string, hook: Route.Dispatch)
    requires WellFormed(s) && RefStore(s, path).0 == 0
    ensures var (_, ent, s1) := RefStore(s, path);
      UnrefStore(s1, ent.value, hook).1 == s
  {
    var o := ResolveSpec(s, path, ROOT_USER_ID, 0, false);
    ResolveOutcome(s, path, ROOT_USER_ID, 0, false);
    var r := o.ent.value;
    assert s[r].linkCount > 0;
    var s1 := s[r := s[r].(openCount := s[r].openCount + 1)];
    assert s1[r := s1[r].(openCount := s1[r].openCount - 1)] == s;
  }

  /** fskit_entry_ref */
  method Ref(core: Core, path: string) returns (rc: int, ent: Option<Ref>)
    requires core.Valid()
    modifies core
    ensures core.Valid()
    ensures (rc, ent, core.ents) == RefStore(old(core.ents), path)
  {
    var o := ResolvePath(core, path, ROOT_USER_ID, 0, false);
    ResolveOutcome(core.ents, path, ROOT_USER_ID, 0, false);
    if o.err != 0 {
      return o.err, None;
    }
    var r := o.ent.value;
    rc := core.RefEntry(r);
    ent := Some(r);
  }

  /** fskit_entry_unref */
  method Unref(core: Core, r: Ref, hook: Route.Dispatch) returns (rc: int)
    requires core.Valid() && r in core.ents && core.ents[r].openCount >= 1
    modifies core
    ensures core.Valid()
    ensures (rc, core.ents) == UnrefStore(old(core.ents), r, hook)
  {
    var n := core.ents[r].(openCount := core.ents[r].openCount - 1);
    UpdateWellFormed(core.ents, r, n);
    core.ents := core.ents[r := n];
    rc := 0;
    if n.openCount <= 0 && n.linkCount <= 0 {
      var destroyed, _ := core.TryDestroy(r, hook, 0);
    }
  }
}
