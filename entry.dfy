// The entry tree of libfskit/entry.c. An entry (struct fskit_entry,
// include/fskit_private/private.h:49-93) is a value; the filesystem core
// holds every entry in a store indexed by Ref, the model of an entry
// pointer, so that "." / ".." and hard links alias by Ref.
module Entry {
  import opened Opt
  import opened Errno
  import opened Defs
  import ES = EntrySet
  import X = Xattr
  import A = Assoc
  import Route
  import PathStr

  type Ref = ES.Ref

  /** The root directory, the entry embedded in struct fskit_core. */
  const ROOT: Ref := 0

  /**
   * The fields of struct fskit_entry that fskit's logic reads. Times are
   * whole numbers (one clock reading); children == [] is a NULL child set.
   */
  datatype Node = Node(
    kind: int,
    fileId: nat,
    owner: int,
    group: int,
    mode: Mode,
    atime: int,
    mtime: int,
    ctime: int,
    linkCount: int,
    openCount: int,
    size: int,
    deletionInProgress: bool,
    deletionThroughRename: bool,
    numChildren: int,
    children: ES.Dir,
    dev: int,
    xattrs: X.XSet,
    symlinkTarget: Option<string>)

  type Store = map<Ref, Node>

  /** Every entry a child set points to is in dom. */
  ghost predicate RefsIn(d: ES.Dir, dom: set<Ref>)
  {
    forall p :: p in d ==> p.1 in dom
  }

  /** The counts are never negative and both sets are well ordered. */
  ghost predicate NodeOk(dom: set<Ref>, n: Node)
  {
    n.linkCount >= 0 && n.openCount >= 0
    && ES.Valid(n.children) && RefsIn(n.children, dom)
    && X.Valid(n.xattrs)
  }

  ghost predicate WellFormed(s: Store)
  {
    ROOT in s && forall r :: r in s ==> NodeOk(s.Keys, s[r])
  }

  lemma UpdateWellFormed(s: Store, r: Ref, n: Node)
    requires WellFormed(s) && r in s && NodeOk(s.Keys, n)
    ensures WellFormed(s[r := n]) && s[r := n].Keys == s.Keys
  {
    assert s[r := n].Keys == s.Keys;
  }

  /** A node whose set lost one name, and whose counts and attributes are another's, is as well formed. */
  lemma RemovedOk(dom: set<Ref>, n: Node, name: string, m: Node)
    requires NodeOk(dom, n)
    requires m.children == ES.Remove(n.children, name).1
    requires m.linkCount == n.linkCount && m.openCount == n.openCount && m.xattrs == n.xattrs
    ensures NodeOk(dom, m)
  {
    A.RemoveMembers(n.children, name);
  }

  /** A second update of an entry overrides the first. */
  lemma UpdateOver(s: Store, r: Ref, a: Node, b: Node)
    ensures s[r := a][r := b] == s[r := b]
  {
  }

  /** A name found in a set points into the set's domain. */
  lemma FoundIn(d: ES.Dir, dom: set<Ref>, name: string)
    requires RefsIn(d, dom) && ES.Find(d, name).Some?
    ensures ES.Find(d, name).value in dom
  {
    A.FindSome(d, name);
  }

  /** A set whose every found target is in dom points into dom. */
  lemma RefsInByFind(d: ES.Dir, dom: set<Ref>)
    requires ES.Valid(d)
    requires forall n :: ES.Find(d, n).Some? ==> ES.Find(d, n).value in dom
    ensures RefsIn(d, dom)
  {
    forall p | p in d ensures p.1 in dom {
      var i :| 0 <= i < |d| && d[i] == p;
      A.FindAt(d, i);
      assert ES.Find(d, p.0) == Some(p.1);
    }
  }

  /** Binding a name to a Ref of dom keeps the set inside dom. */
  lemma RefsInInsert(d: ES.Dir, dom: set<Ref>, name: string, child: Ref)
    requires ES.Valid(d) && RefsIn(d, dom) && child in dom
    ensures RefsIn(ES.Insert(d, name, child), dom)
  {
    A.InsertMembers(d, name, child);
  }

  /** fskit_entry_get_num_children: -1 when the entry has no child set. */
  function NumChildren(n: Node): int
  {
    if |n.children| > 0 then n.numChildren else -1
  }

  /**
   * fskit_entry_init_common: a fresh entry of the given type, all three
   * times set to now, no links, no opens, no children, no xattrs.
   */
  function InitCommon(kind: int, fileId: nat, owner: int, group: int, mode: Mode, now: int): (n: Node)
    ensures forall dom :: NodeOk(dom, n)
    ensures n.kind == kind && n.fileId == fileId && n.owner == owner && n.group == group && n.mode == mode
    ensures n.atime == now && n.mtime == now && n.ctime == now
    ensures n.linkCount == 0 && n.openCount == 0 && NumChildren(n) == -1
  {
    Node(kind, fileId, owner, group, mode, now, now, now, 0, 0, 0, false, false, 0, [], 0, [], None)
  }

  /** fskit_entry_init_dir: a directory whose child set holds "." = self and ".." = parent. */
  function InitDir(self: Ref, parent: Ref, fileId: nat, owner: int, group: int, mode: Mode, now: int): (n: Node)
    ensures n.kind == TYPE_DIR && n.linkCount == 0 && n.openCount == 0 && NumChildren(n) == 0
    ensures ES.Count(n.children) == 2
    ensures ES.Find(n.children, ".") == Some(self) && ES.Find(n.children, "..") == Some(parent)
    ensures forall dom :: self in dom && parent in dom ==> NodeOk(dom, n)
  {
    var d := ES.SetNew(self, parent);
    forall dom | self in dom && parent in dom ensures RefsIn(d, dom) {
      RefsInByFind(d, dom);
    }
    InitCommon(TYPE_DIR, fileId, owner, group, mode, now).(children := d)
  }

  /** fskit_core_init: the root directory, mode 0755, its own parent, linked once. */
  function RootNode(now: int): (n: Node)
    ensures NodeOk({ROOT}, n) && n.kind == TYPE_DIR && n.linkCount == 1
    ensures ES.Find(n.children, ".") == Some(ROOT) && ES.Find(n.children, "..") == Some(ROOT)
  {
    InitDir(ROOT, ROOT, 0, 0, 0, 0x1ED, now).(linkCount := 1)
  }

  /** The counting half of attach: one more link to child unless it is parent, one more child of parent. */
  function AttachCounts(s: Store, parent: Ref, child: Ref, now: int): (r: Store)
    requires WellFormed(s) && parent in s && child in s
    ensures WellFormed(r) && r.Keys == s.Keys
    ensures forall q :: q in s ==> r[q].children == s[q].children && r[q].kind == s[q].kind
    ensures r[parent] == s[parent].(numChildren := s[parent].numChildren + 1, mtime := now,
                                    linkCount := r[parent].linkCount)
    ensures r[child].linkCount == s[child].linkCount + (if parent != child then 1 else 0)
    ensures parent != child ==> r[child] == s[child].(linkCount := s[child].linkCount + 1)
    ensures parent != child ==> r[parent].linkCount == s[parent].linkCount
    ensures forall q :: q in s && q != parent && q != child ==> r[q] == s[q]
  {
    var s1 := if parent != child then s[child := s[child].(linkCount := s[child].linkCount + 1)] else s;
    assert s1.Keys == s.Keys;
    var s2 := s1[parent := s1[parent].(numChildren := s1[parent].numChildren + 1, mtime := now)];
    assert s2.Keys == s.Keys;
    s2
  }

  /** fskit_entry_set_replace of a directory child's ".." by its new parent; other entries keep their sets. */
  function Reparent(s: Store, child: Ref, parent: Ref): (r: Store)
    requires WellFormed(s) && parent in s && child in s
    ensures WellFormed(r) && r.Keys == s.Keys
    ensures s[child].kind == TYPE_DIR ==>
              r[child] == s[child].(children := ES.Replace(s[child].children, "..", parent).1)
    ensures s[child].kind != TYPE_DIR ==> r == s
    ensures forall q :: q in s && q != child ==> r[q] == s[q]
  {
    var c := s[child];
    if c.kind == TYPE_DIR then
      RefsInInsert(c.children, s.Keys, "..", parent);
      var s1 := s[child := c.(children := ES.Replace(c.children, "..", parent).1)];
      assert s1.Keys == s.Keys;
      s1
    else s
  }

  /** fskit_entry_set_insert into parent's set; nothing else changes. */
  function Bind(s: Store, parent: Ref, name: string, child: Ref): (r: Store)
    requires WellFormed(s) && parent in s && child in s
    ensures WellFormed(r) && r.Keys == s.Keys
    ensures r[parent] == s[parent].(children := ES.Insert(s[parent].children, name, child))
    ensures forall q :: q in s && q != parent ==> r[q] == s[q]
  {
    var p := s[parent];
    RefsInInsert(p.children, s.Keys, name, child);
    var s1 := s[parent := p.(children := ES.Insert(p.children, name, child))];
    assert s1.Keys == s.Keys;
    s1
  }

  /**
   * fskit_entry_attach_lowlevel: count one more link to child (not when it
   * is the parent itself) and one more child of parent, touch the parent's
   * mtime, point a directory child's ".." at parent, and bind name to child.
   */
  function AttachStore(s: Store, parent: Ref, child: Ref, name: string, now: int): (r: Store)
    requires WellFormed(s) && parent in s && child in s
    ensures WellFormed(r) && r.Keys == s.Keys
  {
    Bind(Reparent(AttachCounts(s, parent, child, now), child, parent), parent, name, child)
  }

  /**
   * What attach does, entry by entry: name finds child and the parent's
   * other names are unchanged, the counts rise as stated, a directory
   * child's ".." (when present) now names the parent, and every other
   * entry is untouched.
   */
  lemma AttachSpec(s: Store, parent: Ref, child: Ref, name: string, now: int)
    requires WellFormed(s) && parent in s && child in s
    ensures var r := AttachStore(s, parent, child, name, now);
      && ES.Find(r[parent].children, name) == Some(child)
      && r[parent].numChildren == s[parent].numChildren + 1 && r[parent].mtime == now
      && r[child].linkCount == s[child].linkCount + (if parent != child then 1 else 0)
      && (parent != child ==>
            forall n :: n != name ==> ES.Find(r[parent].children, n) == ES.Find(s[parent].children, n))
      && (parent != child && s[child].kind == TYPE_DIR ==>
            ES.Find(r[child].children, "..") == (if ES.Find(s[child].children, "..").Some? then Some(parent) else None))
      && (parent != child && s[child].kind == TYPE_DIR ==>
            forall n :: n != ".." ==> ES.Find(r[child].children, n) == ES.Find(s[child].children, n))
      && (parent != child && s[child].kind != TYPE_DIR ==> r[child] == s[child].(linkCount := s[child].linkCount + 1))
      && (forall q :: q in s && q != parent && q != child ==> r[q] == s[q])
  {
    var s1 := AttachCounts(s, parent, child, now);
    var s2 := Reparent(s1, child, parent);
    if s[child].kind == TYPE_DIR {
      ES.ReplaceSpec(s1[child].children, "..", parent);
    }
  }

  /** The conditions under which unbinding name from parent succeeds. */
  ghost predicate Unbindable(s: Store, parent: Ref, name: string)
    requires parent in s
  {
    var c := ES.Find(s[parent].children, name);
    c.Some? && c.value != parent && c.value in s && name != "." && name != ".."
  }

  /** The conditions under which detaching name from parent succeeds. */
  ghost predicate Detachable(s: Store, parent: Ref, name: string)
    requires parent in s
  {
    var c := ES.Find(s[parent].children, name);
    Unbindable(s, parent, name) && !(s[c.value].kind == TYPE_DIR && NumChildren(s[c.value]) > 2)
  }

  /**
   * The unlinking half of fskit_entry_detach_lowlevel(_ex), without its
   * emptiness test: -ENOENT for an absent name, -ENOTEMPTY for "." (the
   * parent itself), -ENOENT when the set refuses to remove the name (".."
   * of a non-root directory). On success the parent loses one child and
   * its mtime is touched, and the child loses one link, never going
   * below 0.
   */
  function UnbindStore(s: Store, parent: Ref, name: string, now: int): (res: (int, Store))
    requires WellFormed(s) && parent in s
    ensures WellFormed(res.1) && res.1.Keys == s.Keys
    ensures res.0 != 0 ==> res.1 == s
    ensures ES.Find(s[parent].children, name).None? ==> res.0 == -ENOENT
    ensures ES.Find(s[parent].children, name) == Some(parent) ==> res.0 == -ENOTEMPTY
    ensures res.0 == 0 <==> Unbindable(s, parent, name)
    ensures !Unbindable(s, parent, name) ==> res.0 == -ENOENT || res.0 == -ENOTEMPTY
    ensures res.0 == 0 ==>
              var c := ES.Find(s[parent].children, name).value;
              && ES.Find(res.1[parent].children, name) == None
              && (forall n :: n != name ==> ES.Find(res.1[parent].children, n) == ES.Find(s[parent].children, n))
              && ES.Count(res.1[parent].children) == ES.Count(s[parent].children) - 1
              && res.1[parent] == s[parent].(children := res.1[parent].children, mtime := now,
                                               numChildren := s[parent].numChildren - 1)
              && res.1[c] == s[c].(linkCount := if s[c].linkCount > 0 then s[c].linkCount - 1 else 0)
              && (forall q :: q in s && q != parent && q != c ==> res.1[q] == s[q])
  {
    var d := s[parent].children;
    var found := ES.Find(d, name);
    if found.None? then (-ENOENT, s)
    else
      var c := found.value;
      FoundIn(d, s.Keys, name);
      if c == parent then (-ENOTEMPTY, s)
      else
        var (removed, d1) := ES.Remove(d, name);
        if !removed then (-ENOENT, s)
        else (0, UnbindFound(s, parent, name, c, now))
  }

  /** The unbind of a name found in the parent, naming another entry. */
  function UnbindFound(s: Store, parent: Ref, name: string, c: Ref, now: int): (res: Store)
    requires WellFormed(s) && parent in s && c in s && c != parent
    requires ES.Find(s[parent].children, name) == Some(c) && name != "." && name != ".."
    ensures WellFormed(res) && res.Keys == s.Keys
    ensures ES.Find(res[parent].children, name) == None
    ensures forall n :: n != name ==> ES.Find(res[parent].children, n) == ES.Find(s[parent].children, n)
    ensures ES.Count(res[parent].children) == ES.Count(s[parent].children) - 1
    ensures res[parent] == s[parent].(children := res[parent].children, mtime := now,
                                      numChildren := s[parent].numChildren - 1)
    ensures res[c] == s[c].(linkCount := if s[c].linkCount > 0 then s[c].linkCount - 1 else 0)
    ensures forall q :: q in s && q != parent && q != c ==> res[q] == s[q]
  {
    var d1 := ES.Remove(s[parent].children, name).1;
    ES.RemoveSpec(s[parent].children, name);
    var p1 := s[parent].(children := d1, mtime := now, numChildren := s[parent].numChildren - 1);
    RemovedOk(s.Keys, s[parent], name, p1);
    UpdateWellFormed(s, parent, p1);
    var s1 := s[parent := p1];
    var link := s1[c].linkCount - 1;
    var c1 := s1[c].(linkCount := if link < 0 then 0 else link);
    UpdateWellFormed(s1, c, c1);
    s1[c := c1]
  }

  /**
   * fskit_entry_detach_lowlevel(_ex): UnbindStore, refused with
   * -ENOTEMPTY for a directory child with more than two children (a count
   * that leaves out "." and ".."). The update_mtime flag is unused.
   */
  function DetachStore(s: Store, parent: Ref, name: string, now: int): (res: (int, Store))
    requires WellFormed(s) && parent in s
    ensures WellFormed(res.1) && res.1.Keys == s.Keys
    ensures res.0 != 0 ==> res.1 == s
    ensures ES.Find(s[parent].children, name).None? ==> res.0 == -ENOENT
    ensures ES.Find(s[parent].children, name) == Some(parent) ==> res.0 == -ENOTEMPTY
    ensures res.0 == 0 <==> Detachable(s, parent, name)
    ensures !Detachable(s, parent, name) ==> res.0 == -ENOENT || res.0 == -ENOTEMPTY
    ensures res.0 == 0 ==> res == UnbindStore(s, parent, name, now)
  {
    var found := ES.Find(s[parent].children, name);
    if found.Some? && found.value != parent && found.value in s
       && s[found.value].kind == TYPE_DIR && NumChildren(s[found.value]) > 2
    then (-ENOTEMPTY, s)
    else UnbindStore(s, parent, name, now)
  }

  /**
   * fskit_entry_destroy: a DEAD entry is left alone; any other becomes DEAD
   * and loses its child set, symlink target and xattrs.
   */
  function Destroy(n: Node): (r: Node)
    ensures r.kind == TYPE_DEAD
    ensures n.kind == TYPE_DEAD ==> r == n
    ensures n.kind != TYPE_DEAD ==> r.children == [] && r.xattrs == [] && r.symlinkTarget == None
    ensures r.linkCount == n.linkCount && r.openCount == n.openCount && r.fileId == n.fileId
  {
    if n.kind == TYPE_DEAD then n
    else n.(kind := TYPE_DEAD, children := [], symlinkTarget := None, xattrs := [])
  }

  /** Destroying twice is destroying once. */
  lemma DestroyIdempotent(n: Node)
    ensures Destroy(Destroy(n)) == Destroy(n)
  {
  }

  /**
   * fskit_entry_try_destroy(_and_free_ex): an entry with no links and no
   * opens is referenced once more, its destroy route runs (the route's
   * status goes to the caller's cbrc) and it is destroyed: result 1.
   * Otherwise nothing happens: result 0, cbrc untouched. Negative counts,
   * which make the C exit, are excluded by WellFormed.
   */
  function TryDestroyStore(s: Store, r: Ref, hook: Route.Dispatch, cbrc: int): (res: (int, int, Store))
    requires WellFormed(s) && r in s
    ensures WellFormed(res.2) && res.2.Keys == s.Keys
    ensures res.0 == 1 <==> s[r].linkCount <= 0 && s[r].openCount <= 0
    ensures res.0 == 0 || res.0 == 1
    ensures res.0 == 0 ==> res.1 == cbrc && res.2 == s
    ensures res.0 == 1 ==> res.1 == Route.RunUser(hook) && res.2 == s[r := Destroy(s[r].(openCount := 1))]
    ensures forall q :: q in s && q != r ==> res.2[q] == s[q]
  {
    var n := s[r];
    if n.linkCount <= 0 && n.openCount <= 0 then
      var s1 := s[r := Destroy(n.(openCount := n.openCount + 1))];
      assert s1.Keys == s.Keys;
      (1, Route.RunUser(hook), s1)
    else (0, cbrc, s)
  }

  /**
   * fskit_entry_tag_garbage. A directory hands back its child set and gets
   * a fresh one holding only "." and its old "..", no counted children and
   * the deletion flag; -EIO if it had no "..". Any other entry only gets the
   * flag (and hands back no set).
   */
  function TagGarbageStore(s: Store, r: Ref): (res: (int, ES.Dir, Store))
    requires WellFormed(s) && r in s
    ensures WellFormed(res.2) && res.2.Keys == s.Keys
    ensures res.0 == 0 || res.0 == -EIO
    ensures res.0 == -EIO <==> s[r].kind == TYPE_DIR && ES.Find(s[r].children, "..").None?
    ensures res.0 != 0 ==> res.1 == [] && res.2 == s
    ensures res.0 == 0 ==> res.2[r].deletionInProgress && res.2[r].kind == s[r].kind
    ensures res.0 == 0 && s[r].kind == TYPE_DIR ==>
              && res.1 == s[r].children
              && res.2[r].numChildren == 0
              && ES.Count(res.2[r].children) == 2
              && ES.Find(res.2[r].children, ".") == Some(r)
              && ES.Find(res.2[r].children, "..") == ES.Find(s[r].children, "..")
              && (forall n :: n != "." && n != ".." ==> ES.Find(res.2[r].children, n) == None)
    ensures s[r].kind != TYPE_DIR ==> res.1 == [] && res.2 == s[r := s[r].(deletionInProgress := true)]
    ensures forall q :: q in s && q != r ==> res.2[q] == s[q]
    ensures res.2[r].linkCount == s[r].linkCount
  {
    var n := s[r];
    if n.kind == TYPE_DIR then
      var parent := ES.Find(n.children, "..");
      if parent.None? then (-EIO, [], s)
      else
        FoundIn(n.children, s.Keys, "..");
        var newSet := ES.SetNew(r, parent.value);
        RefsInByFind(newSet, s.Keys);
        var s1 := s[r := n.(children := newSet, numChildren := 0, deletionInProgress := true)];
        assert s1.Keys == s.Keys;
        (0, n.children, s1)
    else
      var s1 := s[r := n.(deletionInProgress := true)];
      assert s1.Keys == s.Keys;
      (0, [], s1)
  }

  /**
   * The shared head of fskit_entry_try_garbage_collect: -EEXIST for an entry
   * not marked for deletion; otherwise detach the path's basename from the
   * parent, where -ENOENT (already detached) counts as success and any
   * error but -ENOTEMPTY becomes -EIO; on success try to destroy the child.
   * Returns (status, destroyed, store).
   */
  function GarbageCollectStep(s: Store, path: string, parent: Ref, child: Ref, now: int, hook: Route.Dispatch): (res: (int, bool, Store))
    requires WellFormed(s) && parent in s && child in s
    ensures WellFormed(res.2) && res.2.Keys == s.Keys
    ensures !s[child].deletionInProgress ==> res == (-EEXIST, false, s)
    ensures res.1 ==> res.0 == 1 && res.2[child].kind == TYPE_DEAD
  {
    if !s[child].deletionInProgress then (-EEXIST, false, s)
    else
      var name := PathStr.Basename(path);
      var (drc, s1) := DetachStore(s, parent, name, now);
      var rc := if drc == -ENOENT then 0 else if drc < 0 && drc != -ENOTEMPTY then -EIO else drc;
      if rc != 0 then (rc, false, s1)
      else
        var (destroyed, _, s2) := TryDestroyStore(s1, child, hook, 0);
        (destroyed, destroyed == 1, s2)
  }

  /**
   * fskit_entry_try_garbage_collect as written: after a destroy the
   * basename is removed from the parent and its child count decremented
   * once more, although the detach already did both.
   */
  function TryGarbageCollectAsWritten(s: Store, path: string, parent: Ref, child: Ref, now: int, hook: Route.Dispatch): (res: (int, Store))
    requires WellFormed(s) && parent in s && child in s
    ensures WellFormed(res.1) && res.1.Keys == s.Keys
    ensures !s[child].deletionInProgress ==> res == (-EEXIST, s)
  {
    var (rc, destroyed, s1) := GarbageCollectStep(s, path, parent, child, now, hook);
    if destroyed then (rc, RemoveAgain(s1, parent, PathStr.Basename(path)))
    else (rc, s1)
  }

  /**
   * The tail of fskit_entry_try_garbage_collect as written: remove name
   * from the parent's set and lower its child count, whether or not the
   * name is still there.
   */
  function RemoveAgain(s: Store, parent: Ref, name: string): (r: Store)
    requires WellFormed(s) && parent in s
    ensures WellFormed(r) && r.Keys == s.Keys
    ensures r[parent].numChildren == s[parent].numChildren - 1
    ensures ES.Find(r[parent].children, name) == (if name == "." || name == ".." then ES.Find(s[parent].children, name) else None)
    ensures forall n :: n != name ==> ES.Find(r[parent].children, n) == ES.Find(s[parent].children, n)
    ensures forall q :: q in s && q != parent ==> r[q] == s[q]
  {
    var p := s[parent];
    var p1 := p.(children := ES.Remove(p.children, name).1, numChildren := p.numChildren - 1);
    RemovedOk(s.Keys, p, name, p1);
    UpdateWellFormed(s, parent, p1);
    if name == "." || name == ".." then s[parent := p1]
    else
      ES.RemoveSpec(p.children, name);
      s[parent := p1]
  }

  /**
   * fskit_entry_try_garbage_collect as intended: the detach is the only
   * place the parent's child count drops. -EEXIST for an entry not marked
   * for deletion; 1 when the child was destroyed.
   */
  function TryGarbageCollect(s: Store, path: string, parent: Ref, child: Ref, now: int, hook: Route.Dispatch): (res: (int, Store))
    requires WellFormed(s) && parent in s && child in s
    ensures WellFormed(res.1) && res.1.Keys == s.Keys
    ensures !s[child].deletionInProgress ==> res == (-EEXIST, s)
    ensures res.0 == 1 ==> res.1[child].kind == TYPE_DEAD
    ensures res.0 == 0 || res.0 == 1 || res.0 == -EEXIST || res.0 == -ENOTEMPTY
  {
    var (rc, _, s1) := GarbageCollectStep(s, path, parent, child, now, hook);
    (rc, s1)
  }

  /** Children the parent's count says it has, less the names its set holds. */
  function Surplus(n: Node): int
  {
    n.numChildren - ES.Count(n.children)
  }

  /**
   * Detach moves the parent's count and its set together, so the corrected
   * garbage collection keeps the parent's Surplus whenever the child is
   * another entry.
   */
  lemma TryGarbageCollectKeepsCount(s: Store, path: string, parent: Ref, child: Ref, now: int, hook: Route.Dispatch)
    requires WellFormed(s) && parent in s && child in s && parent != child
    ensures Surplus(TryGarbageCollect(s, path, parent, child, now, hook).1[parent]) == Surplus(s[parent])
  {
  }

  /**
   * When the path's basename names child, a non-directory that loses its
   * last link and is not open, the as-written collection lowers the
   * parent's child count by two while its set loses one name; the corrected
   * one lowers it by one.
   */
  lemma TryGarbageCollectDoubleDecrement(s: Store, path: string, parent: Ref, child: Ref, now: int, hook: Route.Dispatch)
    requires WellFormed(s) && parent in s && child in s && parent != child
    requires ES.Find(s[parent].children, PathStr.Basename(path)) == Some(child)
    requires PathStr.Basename(path) != "." && PathStr.Basename(path) != ".."
    requires s[child].kind != TYPE_DIR && s[child].linkCount == 1 && s[child].openCount == 0
    requires s[child].deletionInProgress
    ensures var r := TryGarbageCollectAsWritten(s, path, parent, child, now, hook);
      r.0 == 1 && r.1[parent].numChildren == s[parent].numChildren - 2
      && ES.Count(r.1[parent].children) == ES.Count(s[parent].children) - 1
    ensures var r := TryGarbageCollect(s, path, parent, child, now, hook);
      r.0 == 1 && r.1[parent].numChildren == s[parent].numChildren - 1
      && ES.Count(r.1[parent].children) == ES.Count(s[parent].children) - 1
  {
    var name := PathStr.Basename(path);
    GcStepDestroys(s, path, parent, child, now, hook);
    var s1 := GarbageCollectStep(s, path, parent, child, now, hook).2;
    ES.RemoveSpec(s1[parent].children, name);
    A.RemoveAbsent(s1[parent].children, name);
  }

  /**
   * The shared head on such an entry: the detach succeeds and the destroy
   * follows, leaving the parent with one name and one counted child fewer.
   */
  lemma GcStepDestroys(s: Store, path: string, parent: Ref, child: Ref, now: int, hook: Route.Dispatch)
    requires WellFormed(s) && parent in s && child in s && parent != child
    requires ES.Find(s[parent].children, PathStr.Basename(path)) == Some(child)
    requires PathStr.Basename(path) != "." && PathStr.Basename(path) != ".."
    requires s[child].kind != TYPE_DIR && s[child].linkCount == 1 && s[child].openCount == 0
    requires s[child].deletionInProgress
    ensures var r := GarbageCollectStep(s, path, parent, child, now, hook);
      && r.0 == 1 && r.1
      && r.2[parent].numChildren == s[parent].numChildren - 1
      && ES.Count(r.2[parent].children) == ES.Count(s[parent].children) - 1
      && ES.Find(r.2[parent].children, PathStr.Basename(path)) == None
  {
    var name := PathStr.Basename(path);
    assert Detachable(s, parent, name);
    var (drc, s1) := DetachStore(s, parent, name, now);
    assert drc == 0 && s1[child].linkCount == 0 && s1[child].openCount == 0;
  }

  /** The root holding a file "f" (entry 1) linked once, not open, marked for deletion. */
  function GcExample(): (s: Store)
    ensures WellFormed(s) && 1 in s && s[1].kind == TYPE_FILE
    ensures s[1].linkCount == 1 && s[1].openCount == 0 && s[1].deletionInProgress
    ensures ES.Find(s[ROOT].children, "f") == Some(1) && s[ROOT].numChildren == 1
  {
    var f := InitCommon(TYPE_FILE, 1, 0, 0, 0x1A4, 0).(linkCount := 1, deletionInProgress := true);
    var root := RootNode(0);
    var rootKids := ES.Insert(root.children, "f", 1);
    var s := map[ROOT := root.(children := rootKids, numChildren := 1), 1 := f];
    RefsInByFind(root.children, {ROOT});
    assert RefsIn(root.children, s.Keys);
    RefsInInsert(root.children, s.Keys, "f", 1);
    assert NodeOk(s.Keys, s[ROOT]);
    s
  }

  lemma BasenameOfF()
    ensures PathStr.Basename("/f") == "f"
  {
    PathStr.BasenameOfComponent("", "f");
    assert "" + "/" + "f" == "/f";
  }

  /** Collecting "/f" from GcExample: as written the root's count of 1 ends at -1. */
  lemma GcExampleGoesNegative()
    ensures TryGarbageCollectAsWritten(GcExample(), "/f", ROOT, 1, 0, Route.NoRoute).1[ROOT].numChildren == -1
    ensures TryGarbageCollect(GcExample(), "/f", ROOT, 1, 0, Route.NoRoute).1[ROOT].numChildren == 0
  {
    var s := GcExample();
    BasenameOfF();
    TryGarbageCollectDoubleDecrement(s, "/f", ROOT, 1, 0, Route.NoRoute);
  }

  /**
   * The filesystem core (struct fskit_core) as far as its entries go: the
   * entry store, root included. Each method performs one entry.c
   * operation in place.
   */
  class Core {
    var ents: Store

    ghost predicate Valid()
      reads this
    {
      WellFormed(ents)
    }

    /** fskit_core_init */
    constructor (now: int)
      ensures Valid() && ents == map[ROOT := RootNode(now)]
    {
      ents := map[ROOT := RootNode(now)];
    }

    /** fskit_entry_attach_lowlevel; its only failure is out-of-memory. */
    method Attach(parent: Ref, child: Ref, name: string, now: int) returns (rc: int)
      requires Valid() && parent in ents && child in ents
      modifies this
      ensures Valid() && rc == 0
      ensures ents == AttachStore(old(ents), parent, child, name, now)
    {
      ents := AttachStore(ents, parent, child, name, now);
      rc := 0;
    }

    /** fskit_entry_detach_lowlevel */
    method Detach(parent: Ref, name: string, now: int) returns (rc: int)
      requires Valid() && parent in ents
      modifies this
      ensures Valid()
      ensures (rc, ents) == DetachStore(old(ents), parent, name, now)
    {
      var res := DetachStore(ents, parent, name, now);
      rc, ents := res.0, res.1;
    }

    /** The unlinking half of fskit_entry_detach_lowlevel, without its emptiness test. */
    method Unbind(parent: Ref, name: string, now: int) returns (rc: int)
      requires Valid() && parent in ents
      modifies this
      ensures Valid()
      ensures (rc, ents) == UnbindStore(old(ents), parent, name, now)
    {
      var res := UnbindStore(ents, parent, name, now);
      rc, ents := res.0, res.1;
    }

    /** fskit_entry_try_destroy_and_free_ex */
    method TryDestroy(r: Ref, hook: Route.Dispatch, cbrc: int) returns (destroyed: int, cbrcOut: int)
      requires Valid() && r in ents
      modifies this
      ensures Valid()
      ensures (destroyed, cbrcOut, ents) == TryDestroyStore(old(ents), r, hook, cbrc)
    {
      var res := TryDestroyStore(ents, r, hook, cbrc);
      destroyed, cbrcOut, ents := res.0, res.1, res.2;
    }

    /** fskit_entry_tag_garbage */
    method TagGarbage(r: Ref) returns (rc: int, children: ES.Dir)
      requires Valid() && r in ents
      modifies this
      ensures Valid()
      ensures (rc, children, ents) == TagGarbageStore(old(ents), r)
    {
      var res := TagGarbageStore(ents, r);
      rc, children, ents := res.0, res.1, res.2;
    }

    /** fskit_entry_ref_entry: one more open; it always succeeds. */
    method RefEntry(r: Ref) returns (rc: int)
      requires Valid() && r in ents
      modifies this
      ensures Valid() && rc == 0
      ensures ents == old(ents)[r := old(ents)[r].(openCount := old(ents)[r].openCount + 1)]
    {
      var n := ents[r];
      UpdateWellFormed(ents, r, n.(openCount := n.openCount + 1));
      ents := ents[r := n.(openCount := n.openCount + 1)];
      rc := 0;
    }

    /** fskit_xattr_set_insert on the entry's own xattr set. */
    method SetXattr(r: Ref, name: Option<string>, value: Option<X.Value>, flags: bv32) returns (rc: int)
      requires Valid() && r in ents
      modifies this
      ensures Valid()
      ensures var (rc', x) := X.Insert(old(ents)[r].xattrs, name, value, flags);
              rc == rc' && ents == old(ents)[r := old(ents)[r].(xattrs := x)]
    {
      var n := ents[r];
      var res := X.Insert(n.xattrs, name, value, flags);
      UpdateWellFormed(ents, r, n.(xattrs := res.1));
      rc, ents := res.0, ents[r := n.(xattrs := res.1)];
    }

    /** fskit_xattr_set_remove on the entry's own xattr set. */
    method RemoveXattr(r: Ref, name: string) returns (removed: bool)
      requires Valid() && r in ents
      modifies this
      ensures Valid()
      ensures var (b, x) := X.Remove(old(ents)[r].xattrs, name);
              removed == b && ents == old(ents)[r := old(ents)[r].(xattrs := x)]
    {
      var n := ents[r];
      var res := X.Remove(n.xattrs, name);
      UpdateWellFormed(ents, r, n.(xattrs := res.1));
      removed, ents := res.0, ents[r := n.(xattrs := res.1)];
    }
  }
}
