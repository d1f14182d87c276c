// The detach context and the breadth-first mass unlink of
// libfskit/entry.c:500-811 (fskit_detach_queue_child(ren),
// fskit_detach_all_ex, the context helpers and fskit_detach_all).
module Detach {
  import opened Opt
  import opened Errno
  import opened Defs
  import PathStr
  import ES = EntrySet
  import A = Assoc
  import Route
  import opened Entry
  import Resolve

  /** FSKIT_DETACH_CTX_CB_FAIL: stop when a destroy route fails. */
  const CB_FAIL: bv32 := 0x1

  /** One queued entry: its full path and the entry. */
  datatype Item = Item(path: string, ent: Ref)

  predicate IsDot(name: string)
  {
    name == "." || name == ".."
  }

  /**
   * What fskit_detach_queue_children appends for a child set d of the
   * directory at dirPath: every child but "." and ".." and DEAD entries,
   * in the set's order, under its full path.
   */
  function QueuedItems(s: Store, dirPath: string, d: ES.Dir): seq<Item>
    requires RefsIn(d, s.Keys)
  {
    if |d| == 0 then []
    else
      var (name, child) := d[0];
      assert d[0] in d;
      var head := if IsDot(name) || s[child].kind == TYPE_DEAD then [] else [Item(PathStr.FullPath(dirPath, name), child)];
      head + QueuedItems(s, dirPath, d[1..])
  }

  /** Every queued item is a non-dot, non-DEAD child of d under dirPath. */
  lemma {:induction false} QueuedItemsFrom(s: Store, dirPath: string, d: ES.Dir)
    requires RefsIn(d, s.Keys)
    ensures forall it :: it in QueuedItems(s, dirPath, d) ==>
      exists i :: 0 <= i < |d| && !IsDot(d[i].0) && it == Item(PathStr.FullPath(dirPath, d[i].0), d[i].1)
                  && s[d[i].1].kind != TYPE_DEAD
  {
    if |d| > 0 {
      QueuedItemsFrom(s, dirPath, d[1..]);
      forall it | it in QueuedItems(s, dirPath, d)
        ensures exists i :: 0 <= i < |d| && !IsDot(d[i].0) && it == Item(PathStr.FullPath(dirPath, d[i].0), d[i].1)
                            && s[d[i].1].kind != TYPE_DEAD
      {
        if it !in QueuedItems(s, dirPath, d[1..]) {
          assert it == Item(PathStr.FullPath(dirPath, d[0].0), d[0].1);
        } else {
          var i :| 0 <= i < |d[1..]| && !IsDot(d[1..][i].0) && it == Item(PathStr.FullPath(dirPath, d[1..][i].0), d[1..][i].1)
                   && s[d[1..][i].1].kind != TYPE_DEAD;
          assert d[i + 1] == d[1..][i];
        }
      }
    }
  }

  /** Conversely, every non-dot, non-DEAD child of d is queued. */
  lemma {:induction false} QueuedItemsComplete(s: Store, dirPath: string, d: ES.Dir, i: nat)
    requires RefsIn(d, s.Keys) && i < |d|
    requires !IsDot(d[i].0) && s[d[i].1].kind != TYPE_DEAD
    ensures Item(PathStr.FullPath(dirPath, d[i].0), d[i].1) in QueuedItems(s, dirPath, d)
  {
    if i > 0 {
      assert d[1..][i - 1] == d[i];
      QueuedItemsComplete(s, dirPath, d[1..], i - 1);
    }
  }

  /** A set with only "." and ".." queues nothing. */
  ghost predicate OnlyDots(d: ES.Dir)
  {
    forall name :: !IsDot(name) ==> ES.Find(d, name) == None
  }

  /** Queuing the children of a set holding only "." and ".." queues nothing. */
  lemma OnlyDotsQueuesNothing(s: Store, dirPath: string, d: ES.Dir)
    requires RefsIn(d, s.Keys) && ES.Valid(d) && OnlyDots(d)
    ensures QueuedItems(s, dirPath, d) == []
  {
    QueuedItemsFrom(s, dirPath, d);
    if QueuedItems(s, dirPath, d) != [] {
      var it := QueuedItems(s, dirPath, d)[0];
      assert it in QueuedItems(s, dirPath, d);
      var i :| 0 <= i < |d| && !IsDot(d[i].0) && it == Item(PathStr.FullPath(dirPath, d[i].0), d[i].1);
      A.FindAt(d, i);
      assert false;
    }
  }

  /** An entry a finished walk has dealt with: a directory is marked and holds only "." and "..". */
  ghost predicate Drained(n: Node)
  {
    n.kind == TYPE_DIR ==> n.deletionInProgress && OnlyDots(n.children)
  }

  /** A directory that still holds children. */
  ghost predicate HasKids(n: Node)
  {
    n.kind == TYPE_DIR && !OnlyDots(n.children)
  }

  /** The directories that still hold children: the loop's termination measure. */
  ghost function Busy(s: Store): set<Ref>
  {
    set r | r in s && HasKids(s[r])
  }

  /**
   * struct fskit_detach_ctx: the FIFO of entries still to unlink, the
   * behaviour flags and the last failing route status.
   */
  class DetachCtx {
    var queue: seq<Item>
    var flags: bv32
    var cbrc: int

    /** fskit_detach_ctx_init: an empty context. */
    constructor ()
      ensures queue == [] && flags == 0 && cbrc == 0
    {
      queue, flags, cbrc := [], 0, 0;
    }

    /** fskit_detach_ctx_set_flags: install new flags, hand back the old ones. */
    method SetFlags(newFlags: bv32) returns (old_: bv32)
      modifies this
      ensures old_ == old(flags) && flags == newFlags
      ensures queue == old(queue) && cbrc == old(cbrc)
    {
      old_ := flags;
      flags := newFlags;
    }

    /** fskit_detach_ctx_get_cbrc */
    function Cbrc(): (r: int)
      reads this
      ensures r == cbrc
    {
      cbrc
    }

    /** fskit_detach_ctx_free: drop every queued entry. */
    method Free()
      modifies this
      ensures queue == [] && flags == old(flags) && cbrc == old(cbrc)
    {
      queue := [];
    }

    /** fskit_detach_queue_child: append one entry at the tail of the FIFO. */
    method QueueChild(dirPath: string, name: string, child: Ref) returns (rc: int)
      modifies this
      ensures rc == 0
      ensures queue == old(queue) + [Item(PathStr.FullPath(dirPath, name), child)]
      ensures flags == old(flags) && cbrc == old(cbrc)
    {
      queue := queue + [Item(PathStr.FullPath(dirPath, name), child)];
      rc := 0;
    }

    /**
     * fskit_detach_queue_children: queue a directory's old children in set
     * order. Its second loop (entry.c:587-593) is left out: it removes the
     * dirname of each queued path from the set, and a dirname holds a '/'
     * that no child name does, so nothing is removed; the caller then frees
     * the set (entry.c:662).
     */
    method QueueChildren(s: Store, dirPath: string, d: ES.Dir) returns (rc: int)
      requires RefsIn(d, s.Keys)
      modifies this
      ensures rc == 0
      ensures queue == old(queue) + QueuedItems(s, dirPath, d)
      ensures flags == old(flags) && cbrc == old(cbrc)
    {
      var i := 0;
      while i < |d|
        invariant 0 <= i <= |d|
        invariant queue + QueuedItems(s, dirPath, d[i..]) == old(queue) + QueuedItems(s, dirPath, d)
        invariant flags == old(flags) && cbrc == old(cbrc)
      {
        var (name, child) := d[i];
        assert d[i] in d;
        assert d[i..][0] == d[i] && d[i..][1..] == d[i + 1..];
        if !IsDot(name) && s[child].kind != TYPE_DEAD {
          var _ := QueueChild(dirPath, name, child);
        }
        i := i + 1;
      }
      rc := 0;
    }
  }

  /** A step that changes one entry, leaving it unchanged or drained, keeps drained entries drained. */
  lemma StepKeepsDrained(s: Store, s1: Store, r: Ref)
    requires s1.Keys == s.Keys && r in s
    requires forall q :: q in s && q != r ==> s1[q] == s[q]
    requires Drained(s[r]) ==> Drained(s1[r])
    ensures forall q :: q in s && Drained(s[q]) ==> Drained(s1[q])
  {
  }

  /** A step that changes one entry and drains it takes it off the busy set and adds none. */
  lemma StepShrinksBusy(s: Store, s1: Store, r: Ref)
    requires s1.Keys == s.Keys && r in s
    requires forall q :: q in s && q != r ==> s1[q] == s[q]
    requires Drained(s1[r])
    ensures Busy(s1) <= Busy(s) && r !in Busy(s1)
  {
  }

  /** Every queued entry is in the store. */
  ghost predicate QueueIn(q: seq<Item>, s: Store)
  {
    forall it :: it in q ==> it.ent in s
  }

  /** How many names other than "." and ".." the set d binds to r. */
  function Bound(d: ES.Dir, r: Ref): nat
  {
    if |d| == 0 then 0 else (if !IsDot(d[0].0) && d[0].1 == r then 1 else 0) + Bound(d[1..], r)
  }

  /** How many queued items name r. */
  function Occ(q: seq<Item>, r: Ref): nat
  {
    if |q| == 0 then 0 else (if q[0].ent == r then 1 else 0) + Occ(q[1..], r)
  }

  /** The names bound to r across the child sets of the entries in dom. */
  ghost function Claims(s: Store, dom: set<Ref>, r: Ref): nat
    requires dom <= s.Keys
    decreases dom
  {
    if dom == {} then 0
    else
      var d :| d in dom;
      Bound(s[d].children, r) + Claims(s, dom - {d}, r)
  }

  /**
   * What fskit_detach_all_ex relies on when it drops one link for every
   * entry it dequeues ("it was detached from exactly one parent"): each
   * entry's link count covers its queued items, the names an extra,
   * already detached child set binds to it, and the names the store's
   * child sets bind to it.
   */
  ghost predicate LinksCoverWith(s: Store, q: seq<Item>, extra: ES.Dir)
  {
    forall r :: r in s ==> Occ(q, r) + Bound(extra, r) + Claims(s, s.Keys, r) <= s[r].linkCount
  }

  ghost predicate LinksCover(s: Store, q: seq<Item>)
  {
    LinksCoverWith(s, q, [])
  }

  /** The sum over dom may take any member of dom first. */
  lemma {:induction false} ClaimsSplit(s: Store, dom: set<Ref>, d: Ref, r: Ref)
    requires dom <= s.Keys && d in dom
    ensures Claims(s, dom, r) == Bound(s[d].children, r) + Claims(s, dom - {d}, r)
    decreases dom
  {
    var e :| e in dom && Claims(s, dom, r) == Bound(s[e].children, r) + Claims(s, dom - {e}, r);
    if e != d {
      ClaimsSplit(s, dom - {e}, d, r);
      ClaimsSplit(s, dom - {d}, e, r);
      assert dom - {e} - {d} == dom - {d} - {e};
    }
  }

  /** Two stores whose entries in dom have the same child sets bind r as often there. */
  lemma {:induction false} ClaimsFrame(s: Store, t: Store, dom: set<Ref>, r: Ref)
    requires dom <= s.Keys && dom <= t.Keys
    requires forall d :: d in dom ==> s[d].children == t[d].children
    ensures Claims(s, dom, r) == Claims(t, dom, r)
    decreases dom
  {
    if dom != {} {
      var e :| e in dom && Claims(s, dom, r) == Bound(s[e].children, r) + Claims(s, dom - {e}, r);
      ClaimsSplit(t, dom, e, r);
      ClaimsFrame(s, t, dom - {e}, r);
    }
  }

  /** Changing one entry changes the names bound to r by the difference of its two child sets. */
  lemma ClaimsUpdate(s: Store, t: Store, d: Ref, r: Ref)
    requires d in s && t.Keys == s.Keys
    requires forall p :: p in s && p != d ==> t[p] == s[p]
    ensures Claims(t, t.Keys, r) + Bound(s[d].children, r) == Claims(s, s.Keys, r) + Bound(t[d].children, r)
  {
    ClaimsSplit(s, s.Keys, d, r);
    ClaimsSplit(t, t.Keys, d, r);
    ClaimsFrame(s, t, s.Keys - {d}, r);
  }

  lemma {:induction false} OccAppend(a: seq<Item>, b: seq<Item>, r: Ref)
    ensures Occ(a + b, r) == Occ(a, r) + Occ(b, r)
  {
    if |a| == 0 {
      assert a + b == b;
    } else {
      assert (a + b)[0] == a[0] && (a + b)[1..] == a[1..] + b;
      OccAppend(a[1..], b, r);
    }
  }

  /** Queuing a set's children queues r at most as often as the set binds it. */
  lemma {:induction false} QueuedBound(s: Store, dirPath: string, d: ES.Dir, r: Ref)
    requires RefsIn(d, s.Keys)
    ensures Occ(QueuedItems(s, dirPath, d), r) <= Bound(d, r)
  {
    if |d| > 0 {
      assert d[0] in d;
      var head := if IsDot(d[0].0) || s[d[0].1].kind == TYPE_DEAD then [] else [Item(PathStr.FullPath(dirPath, d[0].0), d[0].1)];
      assert QueuedItems(s, dirPath, d) == head + QueuedItems(s, dirPath, d[1..]);
      assert forall p :: p in d[1..] ==> p in d;
      QueuedBound(s, dirPath, d[1..], r);
      OccAppend(head, QueuedItems(s, dirPath, d[1..]), r);
    }
  }

  /** A set of nothing but "." and ".." names binds nothing. */
  lemma {:induction false} BoundDots(d: ES.Dir, r: Ref)
    requires forall i :: 0 <= i < |d| ==> IsDot(d[i].0)
    ensures Bound(d, r) == 0
  {
    if |d| > 0 {
      assert forall i :: 0 <= i < |d[1..]| ==> d[1..][i] == d[i + 1];
      BoundDots(d[1..], r);
    }
  }

  /** A sorted set in which only "." and ".." are found holds no other name. */
  lemma OnlyDotsBound(d: ES.Dir, r: Ref)
    requires ES.Valid(d) && OnlyDots(d)
    ensures Bound(d, r) == 0
  {
    forall i | 0 <= i < |d| ensures IsDot(d[i].0) {
      A.FindAt(d, i);
    }
    BoundDots(d, r);
  }

  /** A fresh core, the root directory alone, covers the empty queue. */
  lemma RootCovered(now: int)
    ensures LinksCover(map[ROOT := RootNode(now)], [])
  {
    var s := map[ROOT := RootNode(now)];
    assert s[ROOT].children == ES.SetNew(ROOT, ROOT);
    OnlyDotsBound(s[ROOT].children, ROOT);
    ClaimsSplit(s, s.Keys, ROOT, ROOT);
    assert s.Keys - {ROOT} == {};
  }

  /** The head of a covered queue is linked. */
  lemma HeadLinked(s: Store, q: seq<Item>)
    requires LinksCover(s, q) && |q| > 0 && q[0].ent in s
    ensures s[q[0].ent].linkCount >= 1
  {
    assert Occ(q, q[0].ent) >= 1;
  }

  /**
   * Tagging an entry as garbage moves the names its old set binds out of
   * the store and into the set it hands back; no link count changes.
   */
  lemma TagClaims(s: Store, r: Ref, x: Ref)
    requires WellFormed(s) && r in s && x in s && TagGarbageStore(s, r).0 == 0
    ensures var t := TagGarbageStore(s, r);
      && Claims(t.2, t.2.Keys, x) + Bound(t.1, x) <= Claims(s, s.Keys, x)
      && t.2[x].linkCount == s[x].linkCount
  {
    var t := TagGarbageStore(s, r);
    if x != r {
      assert t.2[x] == s[x];
    }
    ClaimsUpdate(s, t.2, r, x);
    if s[r].kind == TYPE_DIR {
      assert t.1 == s[r].children;
      assert NodeOk(t.2.Keys, t.2[r]);
      assert OnlyDots(t.2[r].children);
      OnlyDotsBound(t.2[r].children, x);
    } else {
      assert t.1 == [] && t.2[r].children == s[r].children;
    }
  }

  /**
   * The directory half of a turn of fskit_detach_all_ex: tag the directory
   * as garbage (its error is returned, nothing changed) and queue its old
   * children at the tail.
   */
  function TagAndQueueSpec(s: Store, q: seq<Item>, next: Item): (res: (int, Store, seq<Item>))
    requires WellFormed(s) && next.ent in s
  {
    var (trc, kids, s1) := TagGarbageStore(s, next.ent);
    if trc != 0 then (trc, s, q)
    else
      assert NodeOk(s.Keys, s[next.ent]);
      (0, s1, q + QueuedItems(s1, next.path, kids))
  }

  /** An entry unlinked by the walk: one link less, and a directory marked for deletion. */
  function DroppedLink(n: Node): (r: Node)
    ensures r.linkCount == n.linkCount - 1 && r.kind == n.kind && r.children == n.children
    ensures r.deletionInProgress == (n.deletionInProgress || n.kind == TYPE_DIR)
    ensures r.openCount == n.openCount
  {
    var m := n.(linkCount := n.linkCount - 1);
    if m.kind == TYPE_DIR then m.(deletionInProgress := true) else m
  }

  /**
   * The common half of a turn: one link less, the deletion flag on a
   * directory, then destroy the entry if nothing references it. Returns
   * (route status, store). The entry is linked (LinksCover), so the count
   * does not go below 0.
   */
  function DropLinkSpec(s: Store, r: Ref, path: string, cbrc: int, hook: string -> Route.Dispatch): (res: (int, Store))
    requires WellFormed(s) && r in s && s[r].linkCount >= 1
  {
    UpdateWellFormed(s, r, DroppedLink(s[r]));
    var (_, cbrc1, s1) := TryDestroyStore(s[r := DroppedLink(s[r])], r, hook(path), cbrc);
    (cbrc1, s1)
  }

  /**
   * One turn of fskit_detach_all_ex's loop on the entry at the head of the
   * queue: the directory half for a directory, then the common half. With
   * CB_FAIL set, a negative route status stops the walk with -EFAULT and
   * the entry left queued; otherwise the head is consumed. Returns
   * (status, route status, store, queue).
   */
  function StepSpec(s: Store, q: seq<Item>, cbrc: int, flags: bv32, hook: string -> Route.Dispatch): (res: (int, int, Store, seq<Item>))
    requires WellFormed(s) && QueueIn(q, s) && |q| > 0 && q[0].ent in s && s[q[0].ent].linkCount >= 1
  {
    var next := q[0];
    assert next in q;
    if s[next.ent].kind == TYPE_DIR then
      var (trc, s1, q1) := TagAndQueueSpec(s, q, next);
      if trc != 0 then (trc, cbrc, s, q)
      else DropAndPopSpec(s1, q1, next, cbrc, flags, hook)
    else DropAndPopSpec(s, q, next, cbrc, flags, hook)
  }

  /** The rest of a turn, after the directory half: drop the link, then stop on CB_FAIL or consume the head. */
  function DropAndPopSpec(s: Store, q: seq<Item>, next: Item, cbrc: int, flags: bv32, hook: string -> Route.Dispatch): (res: (int, int, Store, seq<Item>))
    requires WellFormed(s) && next.ent in s && s[next.ent].linkCount >= 1 && |q| > 0
  {
    var (cbrc1, s2) := DropLinkSpec(s, next.ent, next.path, cbrc, hook);
    if flags & CB_FAIL != 0 && cbrc1 < 0 then (-EFAULT, cbrc1, s2, q)
    else (0, cbrc1, s2, q[1..])
  }

  /** The directory half changes only the directory, drains it, and appends to the queue. */
  lemma TagAndQueueFacts(s: Store, q: seq<Item>, next: Item)
    requires WellFormed(s) && QueueIn(q, s) && next.ent in s && s[next.ent].kind == TYPE_DIR
    ensures var (rc, s1, q1) := TagAndQueueSpec(s, q, next);
      && (rc == 0 || rc == -EIO)
      && WellFormed(s1) && s1.Keys == s.Keys && QueueIn(q1, s1)
      && (forall p :: p in s && p != next.ent ==> s1[p] == s[p])
      && (rc != 0 ==> s1 == s && q1 == q)
      && (rc == 0 ==> s1[next.ent].kind == TYPE_DIR && s1[next.ent].deletionInProgress && OnlyDots(s1[next.ent].children))
      && s1[next.ent].linkCount == s[next.ent].linkCount
      && (rc == 0 ==> |q1| >= |q| && q1[..|q|] == q)
      && (rc == 0 && !HasKids(s[next.ent]) ==> q1 == q)
  {
    var r := next.ent;
    var (t, kids, sT) := TagGarbageStore(s, r);
    if t == 0 {
      assert NodeOk(s.Keys, s[r]);
      QueuedItemsFrom(sT, next.path, kids);
      if !HasKids(s[r]) {
        OnlyDotsQueuesNothing(sT, next.path, kids);
      }
      var q1 := q + QueuedItems(sT, next.path, kids);
      assert q1[..|q|] == q;
    }
  }

  /** The common half changes only the entry, and drains it unless it is a directory still holding children. */
  lemma DropLinkFacts(s: Store, r: Ref, path: string, cbrc: int, hook: string -> Route.Dispatch)
    requires WellFormed(s) && r in s && s[r].linkCount >= 1
    ensures var (cbrc1, s1) := DropLinkSpec(s, r, path, cbrc, hook);
      && WellFormed(s1) && s1.Keys == s.Keys
      && (forall p :: p in s && p != r ==> s1[p] == s[p])
      && s1[r].linkCount == s[r].linkCount - 1
      && (!HasKids(s[r]) ==> Drained(s1[r]))
  {
    var n := DroppedLink(s[r]);
    UpdateWellFormed(s, r, n);
    var s0 := s[r := n];
    assert s0[r] == n;
    var t := TryDestroyStore(s0, r, hook(path), cbrc);
    assert DropLinkSpec(s, r, path, cbrc, hook) == (t.1, t.2);
    assert t.2[r] == n || t.2[r] == Destroy(n.(openCount := 1));
    assert forall p :: p in s && p != r ==> t.2[p] == s[p];
  }

  /** The common half of a turn takes one link and one queued item of the entry, and binds no name anew. */
  lemma DropLinkClaims(s: Store, r: Ref, path: string, cbrc: int, hook: string -> Route.Dispatch, x: Ref)
    requires WellFormed(s) && r in s && s[r].linkCount >= 1 && x in s
    ensures var s1 := DropLinkSpec(s, r, path, cbrc, hook).1;
      && Claims(s1, s1.Keys, x) <= Claims(s, s.Keys, x)
      && s1[x].linkCount == s[x].linkCount - (if x == r then 1 else 0)
  {
    var n := DroppedLink(s[r]);
    UpdateWellFormed(s, r, n);
    var s0 := s[r := n];
    var t := TryDestroyStore(s0, r, hook(path), cbrc);
    assert s0.Keys == s.Keys;
    ClaimsUpdate(s, s0, r, x);
    ClaimsUpdate(s0, t.2, r, x);
    if t.2[r].children != s0[r].children {
      assert t.2[r].children == [];
    }
  }

  /** A turn's common half that consumes the head keeps the queue covered. */
  lemma DropCover(s: Store, q: seq<Item>, cbrc: int, flags: bv32, hook: string -> Route.Dispatch)
    requires WellFormed(s) && QueueIn(q, s) && |q| > 0 && q[0].ent in s && LinksCover(s, q)
    requires s[q[0].ent].linkCount >= 1
    ensures var u := DropAndPopSpec(s, q, q[0], cbrc, flags, hook);
      u.0 == 0 ==> LinksCover(u.2, u.3)
  {
    var next := q[0];
    var u := DropAndPopSpec(s, q, next, cbrc, flags, hook);
    DropLinkFacts(s, next.ent, next.path, cbrc, hook);
    if u.0 == 0 {
      assert u.3 == q[1..];
      forall x | x in u.2
        ensures Occ(u.3, x) + Bound([], x) + Claims(u.2, u.2.Keys, x) <= u.2[x].linkCount
      {
        DropLinkClaims(s, next.ent, next.path, cbrc, hook, x);
      }
    }
  }

  /** The directory half moves the names of the directory's children onto the queue: still covered. */
  lemma TagCover(s: Store, q: seq<Item>, next: Item)
    requires WellFormed(s) && QueueIn(q, s) && next.ent in s && LinksCover(s, q)
    requires TagAndQueueSpec(s, q, next).0 == 0
    ensures var t := TagAndQueueSpec(s, q, next);
      LinksCover(t.1, t.2)
  {
    var r := next.ent;
    var (trc, kids, sT) := TagGarbageStore(s, r);
    assert NodeOk(s.Keys, s[r]);
    assert RefsIn(kids, sT.Keys);
    var added := QueuedItems(sT, next.path, kids);
    assert TagAndQueueSpec(s, q, next) == (0, sT, q + added);
    forall x | x in sT
      ensures Occ(q + added, x) + Bound([], x) + Claims(sT, sT.Keys, x) <= sT[x].linkCount
    {
      TagClaims(s, r, x);
      QueuedBound(sT, next.path, kids, x);
      OccAppend(q, added, x);
    }
  }

  /** A turn that returned 0 keeps the queue covered. */
  lemma StepCover(s: Store, q: seq<Item>, cbrc: int, flags: bv32, hook: string -> Route.Dispatch)
    requires WellFormed(s) && QueueIn(q, s) && |q| > 0 && q[0].ent in s && LinksCover(s, q)
    requires s[q[0].ent].linkCount >= 1
    ensures var u := StepSpec(s, q, cbrc, flags, hook);
      u.0 == 0 ==> LinksCover(u.2, u.3)
  {
    var next := q[0];
    if s[next.ent].kind == TYPE_DIR {
      var t := TagAndQueueSpec(s, q, next);
      if t.0 == 0 {
        TagAndQueueFacts(s, q, next);
        TagCover(s, q, next);
        assert t.2[0] == next;
        DropCover(t.1, t.2, cbrc, flags, hook);
      }
    } else {
      DropCover(s, q, cbrc, flags, hook);
    }
  }

  /** The rest of a turn changes only the entry, drains one that holds no children, and consumes the head on 0. */
  lemma DropAndPopFacts(s: Store, q: seq<Item>, next: Item, cbrc: int, flags: bv32, hook: string -> Route.Dispatch)
    requires WellFormed(s) && next.ent in s && s[next.ent].linkCount >= 1 && QueueIn(q, s) && |q| > 0
    ensures var (rc, cbrc1, s1, q1) := DropAndPopSpec(s, q, next, cbrc, flags, hook);
      var r := next.ent;
      && (rc == 0 || rc == -EFAULT)
      && WellFormed(s1) && s1.Keys == s.Keys && QueueIn(q1, s1)
      && (forall p :: p in s && p != r ==> s1[p] == s[p])
      && (!HasKids(s[r]) ==> Drained(s1[r]))
      && (rc == 0 ==> q1 == q[1..])
      && (rc == -EFAULT ==> flags & CB_FAIL != 0 && cbrc1 < 0)
  {
    DropLinkFacts(s, next.ent, next.path, cbrc, hook);
  }

  /**
   * What one turn guarantees: statuses 0, -EIO (a directory without "..",
   * from the tagger) or -EFAULT; the store stays
   * well formed with the same entries; only the head entry changes, and it
   * is left unchanged or drained (drained on 0); the rest of the queue
   * keeps its order at the front, and an entry that held no children
   * queues nothing.
   */
  ghost predicate TurnOk(s: Store, q: seq<Item>, flags: bv32, res: (int, int, Store, seq<Item>))
    requires WellFormed(s) && QueueIn(q, s) && |q| > 0
  {
    var (rc, cbrc1, s1, q1) := res;
    var r := q[0].ent;
    assert q[0] in q;
    && (rc == 0 || rc == -EIO || rc == -EFAULT)
    && WellFormed(s1) && s1.Keys == s.Keys && QueueIn(q1, s1)
    && (forall p :: p in s && p != r ==> s1[p] == s[p])
    && (Drained(s[r]) ==> Drained(s1[r]))
    && (rc == 0 ==> Drained(s1[r]))
    && (rc == 0 ==> |q1| >= |q| - 1 && q1[..|q| - 1] == q[1..])
    && (rc == 0 && !HasKids(s[r]) ==> q1 == q[1..])
    && (rc == -EFAULT ==> flags & CB_FAIL != 0 && cbrc1 < 0)
  }

  /** The two halves of a directory turn, stated on their results alone, make a good turn. */
  lemma ComposeTurn(s: Store, q: seq<Item>, flags: bv32, s1: Store, q1: seq<Item>, u: (int, int, Store, seq<Item>))
    requires WellFormed(s) && QueueIn(q, s) && |q| > 0 && q[0].ent in s
    requires WellFormed(s1) && s1.Keys == s.Keys && QueueIn(q1, s1)
    requires forall p :: p in s && p != q[0].ent ==> s1[p] == s[p]
    requires Drained(s1[q[0].ent]) && !HasKids(s1[q[0].ent])
    requires |q1| >= |q| && q1[..|q|] == q
    requires !HasKids(s[q[0].ent]) ==> q1 == q
    requires u.0 == 0 || u.0 == -EFAULT
    requires WellFormed(u.2) && u.2.Keys == s1.Keys && QueueIn(u.3, u.2)
    requires forall p :: p in s1 && p != q[0].ent ==> u.2[p] == s1[p]
    requires Drained(u.2[q[0].ent])
    requires u.0 == 0 ==> u.3 == q1[1..]
    requires u.0 == -EFAULT ==> flags & CB_FAIL != 0 && u.1 < 0
    ensures TurnOk(s, q, flags, u)
  {
    assert q1[..|q|][1..] == q[1..];
    if u.0 == 0 {
      assert u.3[..|q| - 1] == q[1..];
    }
  }

  /** A turn on a directory that the tagger accepted. */
  lemma DirTurnFacts(s: Store, q: seq<Item>, cbrc: int, flags: bv32, hook: string -> Route.Dispatch)
    requires WellFormed(s) && QueueIn(q, s) && |q| > 0 && q[0].ent in s && s[q[0].ent].linkCount >= 1
    requires s[q[0].ent].kind == TYPE_DIR && TagAndQueueSpec(s, q, q[0]).0 == 0
    ensures TurnOk(s, q, flags, StepSpec(s, q, cbrc, flags, hook))
  {
    var next := q[0];
    TagAndQueueFacts(s, q, next);
    var t := TagAndQueueSpec(s, q, next);
    DropAndPopFacts(t.1, t.2, next, cbrc, flags, hook);
    var u := DropAndPopSpec(t.1, t.2, next, cbrc, flags, hook);
    assert StepSpec(s, q, cbrc, flags, hook) == u;
    ComposeTurn(s, q, flags, t.1, t.2, u);
  }

  lemma StepFacts(s: Store, q: seq<Item>, cbrc: int, flags: bv32, hook: string -> Route.Dispatch)
    requires WellFormed(s) && QueueIn(q, s) && |q| > 0 && q[0].ent in s && s[q[0].ent].linkCount >= 1
    ensures TurnOk(s, q, flags, StepSpec(s, q, cbrc, flags, hook))
  {
    var next := q[0];
    assert next in q;
    var r := next.ent;
    if s[r].kind == TYPE_DIR {
      TagAndQueueFacts(s, q, next);
      var t := TagAndQueueSpec(s, q, next);
      if t.0 == 0 {
        DirTurnFacts(s, q, cbrc, flags, hook);
      } else {
        assert StepSpec(s, q, cbrc, flags, hook) == (t.0, cbrc, s, q);
      }
    } else {
      DropAndPopFacts(s, q, next, cbrc, flags, hook);
    }
  }

  /** After a turn that returned 0, every initially queued entry is still queued or drained. */
  lemma InitialStillCovered(initial: seq<Item>, q0: seq<Item>, q1: seq<Item>, s0: Store, s1: Store)
    requires |q0| > 0 && |q1| >= |q0| - 1 && q1[..|q0| - 1] == q0[1..]
    requires s1.Keys == s0.Keys && q0[0].ent in s1 && Drained(s1[q0[0].ent])
    requires forall it :: it in initial ==> it.ent in s0 && (it in q0 || Drained(s0[it.ent]))
    requires forall q :: q in s0 && Drained(s0[q]) ==> Drained(s1[q])
    ensures forall it :: it in initial ==> it.ent in s1 && (it in q1 || Drained(s1[it.ent]))
  {
    forall it | it in initial
      ensures it.ent in s1 && (it in q1 || Drained(s1[it.ent]))
    {
      if it in q0 && it != q0[0] {
        assert it in q0[1..];
        assert it in q1[..|q0| - 1];
      }
    }
  }

  /**
   * A turn that returned 0 makes progress (fewer busy directories, or as
   * many and a shorter queue) and keeps the loop's two coverage facts.
   */
  lemma SweepProgress(orig: Store, initial: seq<Item>, s0: Store, q0: seq<Item>, flags: bv32, res: (int, int, Store, seq<Item>))
    requires WellFormed(s0) && QueueIn(q0, s0) && |q0| > 0 && orig.Keys == s0.Keys
    requires TurnOk(s0, q0, flags, res) && res.0 == 0
    requires forall it :: it in initial ==> it.ent in s0 && (it in q0 || Drained(s0[it.ent]))
    requires forall q :: q in orig && Drained(orig[q]) ==> Drained(s0[q])
    ensures Busy(res.2) < Busy(s0) || (Busy(res.2) == Busy(s0) && |res.3| < |q0|)
    ensures forall it :: it in initial ==> it.ent in res.2 && (it in res.3 || Drained(res.2[it.ent]))
    ensures forall q :: q in orig && Drained(orig[q]) ==> Drained(res.2[q])
  {
    var r := q0[0].ent;
    assert q0[0] in q0;
    var s1, q1 := res.2, res.3;
    StepKeepsDrained(s0, s1, r);
    StepShrinksBusy(s0, s1, r);
    InitialStillCovered(initial, q0, q1, s0, s1);
    if r !in Busy(s0) {
      assert !HasKids(s0[r]);
      assert q1 == q0[1..];
    }
  }

  /**
   * One turn of fskit_detach_all_ex's loop, in place: Core.TagGarbage and
   * DetachCtx.QueueChildren for a directory, then the link drop and
   * Core.TryDestroy; a stop on CB_FAIL notes the route status in the
   * context.
   */
  method DetachNext(core: Core, ctx: DetachCtx, cbrc: int, hook: string -> Route.Dispatch)
    returns (rc: int, cbrcOut: int)
    requires core.Valid() && QueueIn(ctx.queue, core.ents) && |ctx.queue| > 0
    requires ctx.queue[0].ent in core.ents && core.ents[ctx.queue[0].ent].linkCount >= 1
    modifies core, ctx
    ensures (rc, cbrcOut, core.ents, ctx.queue) == StepSpec(old(core.ents), old(ctx.queue), cbrc, old(ctx.flags), hook)
    ensures ctx.flags == old(ctx.flags)
    ensures ctx.cbrc == if rc == -EFAULT then cbrcOut else old(ctx.cbrc)
    ensures core.Valid()
  {
    var next := ctx.queue[0];
    assert next in ctx.queue;
    var r := next.ent;
    ghost var s0, q0 := core.ents, ctx.queue;
    cbrcOut := cbrc;
    if core.ents[r].kind == TYPE_DIR {
      rc := TagAndQueue(core, ctx, next);
      if rc != 0 {
        return;
      }
      TagAndQueueFacts(s0, q0, next);
    }
    ghost var s1, q1 := core.ents, ctx.queue;
    assert StepSpec(s0, q0, cbrc, ctx.flags, hook) == DropAndPopSpec(s1, q1, next, cbrc, ctx.flags, hook);
    rc, cbrcOut := DropAndPop(core, ctx, next, cbrc, hook);
  }

  /** The rest of a turn, in place: the link drop, then the CB_FAIL stop or the pop of the head. */
  method DropAndPop(core: Core, ctx: DetachCtx, next: Item, cbrc: int, hook: string -> Route.Dispatch)
    returns (rc: int, cbrcOut: int)
    requires core.Valid() && next.ent in core.ents && core.ents[next.ent].linkCount >= 1 && |ctx.queue| > 0
    modifies core, ctx
    ensures core.Valid()
    ensures (rc, cbrcOut, core.ents, ctx.queue) == DropAndPopSpec(old(core.ents), old(ctx.queue), next, cbrc, old(ctx.flags), hook)
    ensures ctx.flags == old(ctx.flags)
    ensures ctx.cbrc == if rc == -EFAULT then cbrcOut else old(ctx.cbrc)
  {
    cbrcOut := DropLink(core, next.ent, next.path, cbrc, hook);
    rc := 0;
    if ctx.flags & CB_FAIL != 0 && cbrcOut < 0 {
      ctx.cbrc := cbrcOut;
      return -EFAULT, cbrcOut;
    }
    ctx.queue := ctx.queue[1..];
  }

  /** The directory half of a turn, in place: Core.TagGarbage, then DetachCtx.QueueChildren. */
  method TagAndQueue(core: Core, ctx: DetachCtx, next: Item) returns (rc: int)
    requires core.Valid() && next.ent in core.ents
    modifies core, ctx
    ensures core.Valid()
    ensures (rc, core.ents, ctx.queue) == TagAndQueueSpec(old(core.ents), old(ctx.queue), next)
    ensures ctx.flags == old(ctx.flags) && ctx.cbrc == old(ctx.cbrc)
  {
    ghost var s0 := core.ents;
    var children;
    rc, children := core.TagGarbage(next.ent);
    if rc != 0 {
      return;
    }
    assert NodeOk(s0.Keys, s0[next.ent]);
    var _ := ctx.QueueChildren(core.ents, next.path, children);
  }

  /** The link drop and destroy of a turn, in place. */
  method DropLink(core: Core, r: Ref, path: string, cbrc: int, hook: string -> Route.Dispatch)
    returns (cbrcOut: int)
    requires core.Valid() && r in core.ents && core.ents[r].linkCount >= 1
    modifies core
    ensures core.Valid()
    ensures (cbrcOut, core.ents) == DropLinkSpec(old(core.ents), r, path, cbrc, hook)
  {
    ghost var s0 := core.ents;
    var n := core.ents[r];
    n := n.(linkCount := n.linkCount - 1);
    if n.kind == TYPE_DIR {
      n := n.(deletionInProgress := true);
    }
    assert n == DroppedLink(s0[r]);
    UpdateWellFormed(core.ents, r, n);
    core.ents := core.ents[r := n];
    var destroyed;
    destroyed, cbrcOut := core.TryDestroy(r, hook(path), cbrc);
  }

  /**
   * fskit_detach_all_ex: queue the given children (when present), then
   * take entries from the head of the FIFO until it is empty or a turn
   * fails. On 0 the queue is empty and every entry that was queued, or
   * queued in turn, is drained; drained entries stay drained on every
   * outcome. The caller's link counts must cover the queue and the given
   * children (LinksCoverWith); the loop keeps LinksCover, so every
   * dequeued entry still has the link it drops.
   */
  method DetachAllEx(core: Core, dirPath: string, dirChildren: Option<ES.Dir>, ctx: DetachCtx, hook: string -> Route.Dispatch)
    returns (rc: int)
    requires core.Valid() && QueueIn(ctx.queue, core.ents)
    requires dirChildren.Some? ==> RefsIn(dirChildren.value, core.ents.Keys)
    requires LinksCoverWith(core.ents, ctx.queue, if dirChildren.Some? then dirChildren.value else [])
    modifies core, ctx
    ensures core.Valid() && core.ents.Keys == old(core.ents.Keys) && QueueIn(ctx.queue, core.ents)
    ensures rc == 0 || rc == -EIO || rc == -EFAULT
    ensures ctx.flags == old(ctx.flags)
    ensures rc == 0 ==> ctx.queue == [] && LinksCover(core.ents, [])
    ensures rc == 0 ==> forall it :: it in old(ctx.queue) ==> Drained(core.ents[it.ent])
    ensures rc == 0 && dirChildren.Some? ==>
      forall it :: it in QueuedItems(old(core.ents), dirPath, dirChildren.value) ==>
        it.ent in core.ents && Drained(core.ents[it.ent])
    ensures rc == -EFAULT ==> ctx.flags & CB_FAIL != 0 && ctx.cbrc < 0
    ensures forall q :: q in old(core.ents) && Drained(old(core.ents)[q]) ==> Drained(core.ents[q])
  {
    if dirChildren.Some? {
      ghost var q0 := ctx.queue;
      var _ := ctx.QueueChildren(core.ents, dirPath, dirChildren.value);
      QueuedItemsFrom(core.ents, dirPath, dirChildren.value);
      forall x | x in core.ents
        ensures Occ(ctx.queue, x) + Bound([], x) + Claims(core.ents, core.ents.Keys, x) <= core.ents[x].linkCount
      {
        QueuedBound(core.ents, dirPath, dirChildren.value, x);
        OccAppend(q0, QueuedItems(core.ents, dirPath, dirChildren.value), x);
      }
    }
    ghost var initial := ctx.queue;
    var cbrc := 0;
    while |ctx.queue| > 0
      invariant core.Valid() && core.ents.Keys == old(core.ents.Keys) && QueueIn(ctx.queue, core.ents)
      invariant ctx.flags == old(ctx.flags)
      invariant forall it :: it in initial ==> it.ent in core.ents && (it in ctx.queue || Drained(core.ents[it.ent]))
      invariant forall q :: q in old(core.ents) && Drained(old(core.ents)[q]) ==> Drained(core.ents[q])
      invariant LinksCover(core.ents, ctx.queue)
      invariant forall it :: it in old(ctx.queue) ==> it in initial
      invariant dirChildren.Some? ==> forall it :: it in QueuedItems(old(core.ents), dirPath, dirChildren.value) ==> it in initial
      decreases Busy(core.ents), |ctx.queue|
    {
      ghost var s0 := core.ents;
      ghost var q0 := ctx.queue;
      assert q0[0] in q0;
      HeadLinked(s0, q0);
      StepFacts(s0, q0, cbrc, ctx.flags, hook);
      StepCover(s0, q0, cbrc, ctx.flags, hook);
      rc, cbrc := DetachNext(core, ctx, cbrc, hook);
      assert q0[0] in q0;
      StepKeepsDrained(s0, core.ents, q0[0].ent);
      if rc != 0 {
        return rc;
      }
      SweepProgress(old(core.ents), initial, s0, q0, ctx.flags, (rc, cbrc, core.ents, ctx.queue));
    }
    rc := 0;
  }

  /**
   * fskit_detach_all: resolve the directory as uid 0, gid 0, mark it as
   * garbage, and unlink everything below it (a retry after -ENOMEM is not
   * needed here). The resolver's and the tagger's errors are returned.
   */
  method DetachAll(core: Core, rootPath: string, hook: string -> Route.Dispatch) returns (rc: int)
    requires core.Valid() && LinksCover(core.ents, [])
    modifies core
    ensures core.Valid() && core.ents.Keys == old(core.ents.Keys)
    ensures var o := Resolve.ResolveSpec(old(core.ents), rootPath, ROOT_USER_ID, 0, false);
      && (o.err != 0 ==> rc == o.err && core.ents == old(core.ents))
      && (o.err == 0 ==> rc == 0 || rc == -EIO || rc == -EFAULT)
      && (rc == 0 ==> o.ent.Some? && o.ent.value in core.ents && Drained(core.ents[o.ent.value]))
    ensures rc == 0 ==> LinksCover(core.ents, [])
  {
    var ctx := new DetachCtx();
    var o := Resolve.ResolvePath(core, rootPath, ROOT_USER_ID, 0, false);
    Resolve.ResolveOutcome(core.ents, rootPath, ROOT_USER_ID, 0, false);
    if o.err != 0 {
      return o.err;
    }
    var dent := o.ent.value;
    ghost var s0 := core.ents;
    var children;
    rc, children := core.TagGarbage(dent);
    if rc != 0 {
      return rc;
    }
    assert NodeOk(s0.Keys, s0[dent]);
    assert Drained(core.ents[dent]);
    forall x | x in core.ents
      ensures Occ([], x) + Bound(children, x) + Claims(core.ents, core.ents.Keys, x) <= core.ents[x].linkCount
    {
      TagClaims(s0, dent, x);
    }
    rc := DetachAllEx(core, rootPath, Some(children), ctx, hook);
  }
}
