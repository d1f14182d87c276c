// The route layer (libfskit/route.c): the outcome of calling a user
// route, the route table's slot allocator, route matching and the
// rename-discipline and undeclare checks.
module Route {
  import opened Opt
  import opened Errno
  import opened Slots

  /**
   * What fskit_route_call did for one request: no defined route matched
   * (the call returns -EPERM and runs nothing), or a route's callback ran
   * and returned cbrc (-ENOSYS when the route has no callback of that kind).
   */
  datatype Dispatch = NoRoute | Called(cbrc: int)

  /** fskit_route_call's own return code: 0 once a route was called. */
  function CallRc(d: Dispatch): int
  {
    if d.NoRoute? then -EPERM else 0
  }

  /**
   * The common tail of fskit_run_user_{detach,destroy,rename,trunc,read,
   * stat,readdir}: -EPERM from route_call means "no route" and is success;
   * otherwise the callback's status is returned. Their test for -ENOSYS
   * from route_call is dead: fskit_route_call returns only -EPERM or 0
   * (route.c:705-744), and a missing callback's -ENOSYS (route.c:498)
   * arrives in cbrc, so it is returned as an error like any other status.
   */
  function RunUser(d: Dispatch): (rc: int)
    ensures d.NoRoute? ==> rc == 0
    ensures d.Called? ==> rc == d.cbrc
  {
    var callRc := CallRc(d);
    if callRc == -EPERM || callRc == -ENOSYS then 0
    else if d.cbrc != 0 then d.cbrc
    else 0
  }

  // Route consistency disciplines and the route type of rename routes.
  const FSKIT_SEQUENTIAL: int := 1
  const FSKIT_CONCURRENT: int := 2
  const FSKIT_INODE_SEQUENTIAL: int := 3
  const FSKIT_INODE_CONCURRENT: int := 4
  const ROUTE_MATCH_RENAME: int := 12

  /**
   * A declared route: its regex (absent for a route that is not defined),
   * the number of match groups expected from it, its route type and
   * consistency discipline, and whether it was given a callback.
   */
  datatype PathRoute = PathRoute(regex: Option<string>, expected: int, routeType: int,
                                 discipline: int, hasCallback: bool)

  /** A slot of a row (None is a NULL slot), a row, and the table of rows by route type. */
  type Slot = Option<PathRoute>
  type Row = seq<Slot>
  type Table = map<int, Row>

  /** A row holds at least one route. */
  predicate Occupied(r: Row)
  {
    exists i :: 0 <= i < |r| && r[i].Some?
  }

  /** The table keeps a row only while it holds a route. */
  ghost predicate TableOk(t: Table)
  {
    forall ty :: ty in t ==> Occupied(t[ty])
  }

  /** The row of a route type; a type with no row has no slots. */
  function RowOf(t: Table, ty: int): Row
  {
    if ty in t then t[ty] else []
  }

  /** The row with route put in slot k: the slot itself, or a new one appended at the end. */
  function Place(r: Row, k: nat, route: PathRoute): Row
    requires k <= |r|
  {
    if k < |r| then r[k := Some(route)] else r + [Some(route)]
  }

  /**
   * fskit_route_table_insert: the row of the type is made if it is not
   * there; the route goes in the lowest NULL slot, else at the end; the id
   * returned is the slot's index. Nothing else in the table changes.
   */
  function Insert(t: Table, ty: int, route: PathRoute): (res: (int, Table))
    ensures var r := RowOf(t, ty); var id := res.0;
      && 0 <= id <= |r| && ty in res.1
      && |res.1[ty]| == (if id < |r| then |r| else |r| + 1)
      && res.1[ty][id] == Some(route)
      && (forall j :: 0 <= j < |r| && j != id ==> res.1[ty][j] == r[j])
      && (forall j :: 0 <= j < id ==> r[j].Some?)
      && (id < |r| ==> r[id].None?)
    ensures forall u :: u != ty ==> RowOf(res.1, u) == RowOf(t, u)
    ensures TableOk(t) ==> TableOk(res.1)
  {
    var r := RowOf(t, ty);
    var k := FreeSlot(r);
    FreeSlotSpec(r);
    var t1 := t[ty := Place(r, k, route)];
    assert t1[ty][k].Some?;
    (k, t1)
  }

  /** fskit_route_table_find: no row, or an id past the row's end, finds nothing; otherwise the slot's content. */
  function Find(t: Table, ty: int, id: int): (s: Slot)
    requires id >= 0
    ensures s.Some? ==> ty in t && id < |t[ty]| && s == t[ty][id]
    ensures ty in t && id < |t[ty]| ==> s == t[ty][id]
  {
    if ty !in t || id >= |t[ty]| then None else t[ty][id]
  }

  /**
   * fskit_route_table_remove: the slot's content comes back and the slot
   * becomes NULL; the row goes once it holds no route. An unknown type or
   * an id past the row's end removes nothing.
   */
  function Remove(t: Table, ty: int, id: int): (res: (Slot, Table))
    requires id >= 0
    ensures res.0 == Find(t, ty, id)
    ensures Find(res.1, ty, id) == None
    ensures forall u, j :: 0 <= j && (u != ty || j != id) ==> Find(res.1, u, j) == Find(t, u, j)
    ensures ty in res.1 ==> ty in t && |res.1[ty]| == |t[ty]|
    ensures forall u :: u != ty ==> RowOf(res.1, u) == RowOf(t, u)
    ensures TableOk(t) ==> TableOk(res.1)
  {
    if ty !in t || id >= |t[ty]| then (None, t)
    else
      var r := t[ty][id := None];
      if Occupied(r) then (t[ty][id], t[ty := r])
      else
        assert forall j :: 0 <= j < |r| ==> r[j].None?;
        assert forall j :: 0 <= j && j != id ==> Find(t, ty, j) == None by {
          forall j | 0 <= j && j != id ensures Find(t, ty, j) == None {
            if j < |r| {
              assert r[j] == t[ty][j];
            }
          }
        }
        (t[ty][id], t - {ty})
  }

  /** The scan of fskit_route_table_insert for a NULL slot. */
  method LowestNull(r: Row) returns (k: nat)
    ensures k == FreeSlot(r)
  {
    k := 0;
    while k < |r|
      invariant k <= |r|
      invariant forall j :: 0 <= j < k ==> r[j].Some?
    {
      if r[k].None? {
        break;
      }
      k := k + 1;
    }
    FreeSlotIs(r, k);
  }

  /** The scan of fskit_route_table_remove for a slot still in use. */
  method AnyInUse(r: Row) returns (used: bool)
    ensures used == Occupied(r)
  {
    var i := 0;
    while i < |r|
      invariant i <= |r|
      invariant forall j :: 0 <= j < i ==> r[j].None?
    {
      if r[i].Some? {
        return true;
      }
      i := i + 1;
    }
    return false;
  }

  /** Whether position i of s opens a group: a '(' not right after a backslash. */
  predicate OpensGroup(s: string, i: nat)
    requires i < |s|
  {
    s[i] == '(' && (i == 0 || s[i - 1] != '\\')
  }

  /** The number of positions of s that open a group, counted from the left. */
  function OpenGroups(s: string): nat
  {
    if |s| == 0 then 0
    else OpenGroups(s[..|s| - 1]) + (if OpensGroup(s, |s| - 1) then 1 else 0)
  }

  /** The count is the number of group-opening positions, and no more than the string's length. */
  lemma {:induction false} OpenGroupsCounts(s: string)
    ensures OpenGroups(s) == |set i | 0 <= i < |s| && OpensGroup(s, i)|
    ensures OpenGroups(s) <= |s|
  {
    var all := set i | 0 <= i < |s| && OpensGroup(s, i);
    if |s| > 0 {
      var p := s[..|s| - 1];
      OpenGroupsCounts(p);
      var before := set i | 0 <= i < |p| && OpensGroup(p, i);
      assert forall i :: 0 <= i < |p| ==> (OpensGroup(p, i) <==> OpensGroup(s, i));
      if OpensGroup(s, |s| - 1) {
        assert all == before + {|s| - 1};
      } else {
        assert all == before;
      }
    } else {
      assert all == {};
    }
  }

  /**
   * fskit_num_expected_matches: one more than the number of group-opening
   * parentheses. Whether a backslash itself is escaped is not looked at.
   */
  method NumExpectedMatches(path: string) returns (n: int)
    ensures n == OpenGroups(path) + 1
  {
    var prev: char := '\0';
    var numGroups := 0;
    var i := 0;
    while i < |path|
      invariant i <= |path|
      invariant numGroups == OpenGroups(path[..i])
      invariant prev == if i == 0 then '\0' else path[i - 1]
    {
      assert path[..i + 1][..i] == path[..i];
      if path[i] == '(' && prev != '\\' {
        numGroups := numGroups + 1;
      }
      prev := path[i];
      i := i + 1;
    }
    assert path[..i] == path;
    n := numGroups + 1;
  }

  /** An escaped parenthesis opens no group, an unescaped one does. */
  lemma NumExpectedExample()
    ensures OpenGroups("a\\(b") == 0
    ensures OpenGroups("(a)(") == 2
  {
    assert OpenGroups("a") == 0 by {
      assert "a"[..0] == [];
    }
    assert OpenGroups("a\\") == 0 by {
      assert "a\\"[..1] == "a";
    }
    assert OpenGroups("a\\(") == 0 by {
      assert "a\\("[..2] == "a\\";
      assert !OpensGroup("a\\(", 2);
    }
    assert "a\\(b"[..3] == "a\\(";
    assert OpenGroups("(") == 1 by {
      assert "("[..0] == [];
    }
    assert OpenGroups("(a") == 1 by {
      assert "(a"[..1] == "(";
    }
    assert OpenGroups("(a)") == 1 by {
      assert "(a)"[..2] == "(a";
    }
    assert "(a)("[..3] == "(a)";
    assert OpensGroup("(a)(", 3);
  }

  /** Whether path matches the regex at the route's position: regcomp and regexec, taken as given. */
  type Matcher = (string, string) -> bool

  /** A slot whose route is defined and whose regex matches path. */
  predicate Hit(s: Slot, path: string, matches: Matcher)
  {
    s.Some? && s.value.regex.Some? && matches(s.value.regex.value, path)
  }

  /** The first slot of the row that hits, in index order. */
  function FirstHit(r: Row, path: string, matches: Matcher): (k: Option<nat>)
    ensures k.Some? ==> k.value < |r|
  {
    if |r| == 0 then None
    else if Hit(r[0], path, matches) then Some(0)
    else
      var k := FirstHit(r[1..], path, matches);
      if k.None? then None else Some(k.value + 1)
  }

  /** The first hit hits and nothing before it does; no hit means no slot hits. */
  lemma {:induction false} FirstHitSpec(r: Row, path: string, matches: Matcher)
    ensures var k := FirstHit(r, path, matches);
      && (k.Some? ==> Hit(r[k.value], path, matches))
      && (k.Some? ==> forall j :: 0 <= j < k.value ==> !Hit(r[j], path, matches))
      && (k.None? ==> forall j :: 0 <= j < |r| ==> !Hit(r[j], path, matches))
  {
    if |r| > 0 && !Hit(r[0], path, matches) {
      FirstHitSpec(r[1..], path, matches);
      forall j | 0 < j < |r| ensures r[j] == r[1..][j - 1] {
      }
    }
  }

  /**
   * fskit_route_match: the slots of the type's row in index order, skipping
   * routes that are not defined; the first whose regex matches wins.
   */
  method MatchRoute(t: Table, ty: int, path: string, matches: Matcher) returns (k: Option<nat>)
    ensures k == FirstHit(RowOf(t, ty), path, matches)
  {
    if ty !in t {
      return None;
    }
    var r := t[ty];
    FirstHitSpec(r, path, matches);
    var i := 0;
    while i < |r|
      invariant i <= |r|
      invariant forall j :: 0 <= j < i ==> !Hit(r[j], path, matches)
    {
      if r[i].Some? && r[i].value.regex.Some? && matches(r[i].value.regex.value, path) {
        FirstHitSpec(r, path, matches);
        return Some(i);
      }
      i := i + 1;
    }
    return None;
  }

  /**
   * fskit_route_call for a request of type ty on path: no hit is -EPERM
   * and runs nothing; otherwise the first hit's callback runs, and a route
   * without one gives -ENOSYS (fskit_safe_dispatch).
   */
  function CallRoute(t: Table, ty: int, path: string, matches: Matcher, run: PathRoute -> int): (d: Dispatch)
    ensures d.NoRoute? <==> FirstHit(RowOf(t, ty), path, matches).None?
    ensures d.Called? ==> var route := RowOf(t, ty)[FirstHit(RowOf(t, ty), path, matches).value];
      route.Some? && route.value.regex.Some? && matches(route.value.regex.value, path) &&
      d.cbrc == (if route.value.hasCallback then run(route.value) else -ENOSYS)
  {
    var k := FirstHit(RowOf(t, ty), path, matches);
    FirstHitSpec(RowOf(t, ty), path, matches);
    if k.None? then NoRoute
    else
      var route := RowOf(t, ty)[k.value].value;
      Called(if route.hasCallback then run(route) else -ENOSYS)
  }

  /**
   * With nothing matching, fskit_route_call reports -EPERM whatever the
   * callbacks would do, and the run_user wrappers take it as success.
   */
  lemma CallWithoutMatch(t: Table, ty: int, path: string, matches: Matcher, run1: PathRoute -> int, run2: PathRoute -> int)
    requires forall j :: 0 <= j < |RowOf(t, ty)| ==> !Hit(RowOf(t, ty)[j], path, matches)
    ensures CallRoute(t, ty, path, matches, run1) == CallRoute(t, ty, path, matches, run2) == NoRoute
    ensures CallRc(CallRoute(t, ty, path, matches, run1)) == -EPERM
    ensures RunUser(CallRoute(t, ty, path, matches, run1)) == 0
  {
    FirstHitSpec(RowOf(t, ty), path, matches);
  }

  /**
   * fskit_path_route_decl: a regex that does not compile is -EINVAL and
   * changes nothing; otherwise the new route is inserted and its route id
   * comes back.
   */
  function Declare(t: Table, ty: int, regex: string, discipline: int, hasCallback: bool, compiles: bool): (res: (int, Table))
    ensures !compiles ==> res == (-EINVAL, t)
    ensures compiles ==> res.0 >= 0 && Find(res.1, ty, res.0) == Some(PathRoute(Some(regex), OpenGroups(regex) + 1, ty, discipline, hasCallback))
    ensures compiles ==> forall u :: u != ty ==> RowOf(res.1, u) == RowOf(t, u)
    ensures TableOk(t) ==> TableOk(res.1)
  {
    if !compiles then (-EINVAL, t)
    else Insert(t, ty, PathRoute(Some(regex), OpenGroups(regex) + 1, ty, discipline, hasCallback))
  }

  /** fskit_path_route_undecl: -EINVAL when the handle names no route; otherwise 0, the route gone. */
  function Undeclare(t: Table, ty: int, handle: int): (res: (int, Table))
    requires handle >= 0
    ensures res.0 == 0 <==> Find(t, ty, handle).Some?
    ensures res.0 != 0 ==> res.0 == -EINVAL
    ensures Find(res.1, ty, handle) == None
    ensures forall u, j :: 0 <= j && (u != ty || j != handle) ==> Find(res.1, u, j) == Find(t, u, j)
    ensures TableOk(t) ==> TableOk(res.1)
  {
    var (route, t1) := Remove(t, ty, handle);
    if route.None? then (-EINVAL, t1) else (0, t1)
  }

  /** On a table that keeps no empty rows, undeclaring an unknown handle changes nothing. */
  lemma UndeclareUnknown(t: Table, ty: int, handle: int)
    requires TableOk(t) && handle >= 0 && Find(t, ty, handle).None?
    ensures Undeclare(t, ty, handle) == (-EINVAL, t)
  {
    if ty in t && handle < |t[ty]| {
      assert t[ty][handle := None] == t[ty];
      assert t[ty := t[ty]] == t;
    }
  }

  /**
   * Declaring a route and undeclaring it again leaves a table where every
   * lookup finds what it found before (the row may keep a trailing NULL
   * slot).
   */
  lemma DeclareThenUndeclare(t: Table, ty: int, regex: string, discipline: int, hasCallback: bool)
    ensures var (h, t1) := Declare(t, ty, regex, discipline, hasCallback, true);
      h >= 0 && Undeclare(t1, ty, h).0 == 0 &&
      forall u, j :: 0 <= j ==> Find(Undeclare(t1, ty, h).1, u, j) == Find(t, u, j)
  {
    var (h, t1) := Declare(t, ty, regex, discipline, hasCallback, true);
    var t2 := Undeclare(t1, ty, h).1;
    forall u, j | 0 <= j ensures Find(t2, u, j) == Find(t, u, j) {
      if u == ty && j == h {
        assert Find(t, ty, h) == None by {
          assert h < |RowOf(t, ty)| ==> RowOf(t, ty)[h].None?;
        }
      } else if u == ty {
        assert Find(t2, u, j) == Find(t1, u, j);
        if j < |RowOf(t, ty)| {
          assert t1[ty][j] == RowOf(t, ty)[j];
        }
      } else {
        assert RowOf(t1, u) == RowOf(t, u);
      }
    }
  }

  /**
   * A freed slot is reused: when every slot below handle holds a route,
   * undeclaring handle and declaring again hands out the same id.
   */
  lemma FreedSlotReused(t: Table, ty: int, handle: int, regex: string, discipline: int, hasCallback: bool)
    requires TableOk(t) && handle >= 0 && Find(t, ty, handle).Some?
    requires forall j :: 0 <= j < handle ==> Find(t, ty, j).Some?
    ensures var t1 := Undeclare(t, ty, handle).1;
      Declare(t1, ty, regex, discipline, hasCallback, true).0 == handle
  {
    var t1 := Undeclare(t, ty, handle).1;
    var r := RowOf(t1, ty);
    assert handle > 0 ==> Find(t1, ty, 0) == Find(t, ty, 0);
    if ty in t1 {
      assert |r| == |t[ty]|;
      forall j | 0 <= j < handle ensures r[j].Some? {
        assert Find(t1, ty, j) == Find(t, ty, j);
      }
      assert r[handle].None? by {
        assert Find(t1, ty, handle) == None;
      }
      FreeSlotIs(r, handle);
    } else {
      FreeSlotIs(r, 0);
    }
  }

  /**
   * fskit_route_rename: a discipline other than sequential or concurrent
   * is -EINVAL before anything is declared; otherwise a rename route is
   * declared.
   */
  function DeclareRename(t: Table, regex: string, discipline: int, hasCallback: bool, compiles: bool): (res: (int, Table))
    ensures discipline != FSKIT_CONCURRENT && discipline != FSKIT_SEQUENTIAL ==> res == (-EINVAL, t)
    ensures discipline == FSKIT_CONCURRENT || discipline == FSKIT_SEQUENTIAL ==>
              res == Declare(t, ROUTE_MATCH_RENAME, regex, discipline, hasCallback, compiles)
  {
    if discipline != FSKIT_CONCURRENT && discipline != FSKIT_SEQUENTIAL then (-EINVAL, t)
    else Declare(t, ROUTE_MATCH_RENAME, regex, discipline, hasCallback, compiles)
  }

  /** The per-inode disciplines are refused for rename routes, whatever the regex. */
  lemma RenameRefusesInodeDisciplines(t: Table, regex: string, hasCallback: bool, compiles: bool)
    ensures DeclareRename(t, regex, FSKIT_INODE_SEQUENTIAL, hasCallback, compiles) == (-EINVAL, t)
    ensures DeclareRename(t, regex, FSKIT_INODE_CONCURRENT, hasCallback, compiles) == (-EINVAL, t)
  {
  }

  /** The core's route table (fskit_route_table), changed in place by declarations. */
  class RouteTable {
    var rows: Table

    ghost predicate Valid()
      reads this
    {
      TableOk(rows)
    }

    /** fskit_route_table_new: no rows. */
    constructor ()
      ensures Valid() && rows == map[]
    {
      rows := map[];
    }

    /** fskit_route_table_insert on the table. */
    method InsertRoute(ty: int, route: PathRoute) returns (id: int)
      requires Valid()
      modifies this
      ensures Valid()
      ensures (id, rows) == Insert(old(rows), ty, route)
    {
      ghost var t := rows;
      if ty !in rows {
        rows := rows[ty := []];
      }
      var r := rows[ty];
      assert r == RowOf(t, ty);
      var k := LowestNull(r);
      if k < |r| {
        rows := rows[ty := r[k := Some(route)]];
      } else {
        rows := rows[ty := r + [Some(route)]];
      }
      id := k;
      assert rows == t[ty := Place(r, k, route)];
      assert (id, rows) == Insert(t, ty, route);
    }

    /** fskit_route_table_remove on the table. */
    method RemoveRoute(ty: int, id: int) returns (route: Slot)
      requires Valid() && id >= 0
      modifies this
      ensures Valid()
      ensures (route, rows) == Remove(old(rows), ty, id)
    {
      if ty !in rows || id >= |rows[ty]| {
        return None;
      }
      ghost var t := rows;
      route := rows[ty][id];
      var r := rows[ty][id := None];
      rows := rows[ty := r];
      var used := AnyInUse(r);
      if !used {
        rows := rows - {ty};
        assert rows == t - {ty};
      }
      assert (route, rows) == Remove(t, ty, id);
    }

    /** fskit_path_route_decl on the table. */
    method DeclareRoute(ty: int, regex: string, discipline: int, hasCallback: bool, compiles: bool) returns (rc: int)
      requires Valid()
      modifies this
      ensures Valid()
      ensures (rc, rows) == Declare(old(rows), ty, regex, discipline, hasCallback, compiles)
    {
      if !compiles {
        return -EINVAL;
      }
      var expected := NumExpectedMatches(regex);
      rc := InsertRoute(ty, PathRoute(Some(regex), expected, ty, discipline, hasCallback));
    }

    /** fskit_path_route_undecl on the table. */
    method UndeclareRoute(ty: int, handle: int) returns (rc: int)
      requires Valid() && handle >= 0
      modifies this
      ensures Valid()
      ensures (rc, rows) == Undeclare(old(rows), ty, handle)
    {
      var route := RemoveRoute(ty, handle);
      if route.None? {
        return -EINVAL;
      }
      rc := 0;
    }

    /** fskit_route_rename on the table. */
    method RouteRename(regex: string, discipline: int, hasCallback: bool, compiles: bool) returns (rc: int)
      requires Valid()
      modifies this
      ensures Valid()
      ensures (rc, rows) == DeclareRename(old(rows), regex, discipline, hasCallback, compiles)
    {
      if discipline != FSKIT_CONCURRENT && discipline != FSKIT_SEQUENTIAL {
        return -EINVAL;
      }
      rc := DeclareRoute(ROUTE_MATCH_RENAME, regex, discipline, hasCallback, compiles);
    }
  }
}
