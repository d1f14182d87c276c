// Directory listings (libfskit/readdir.c): the scan of a directory's child
// set into a NULL-terminated array of records, the resumable cursor of a
// directory handle, compaction of the array after the user route has
// omitted records, and fskit_readdir / fskit_listdir on top of them.
module Readdir {
  import opened Opt
  import opened Errno
  import opened Defs
  import opened Strs
  import ES = EntrySet
  import A = Assoc
  import Route
  import opened Entry

  /** UINT64_MAX, the "all children" request. */
  const UINT64_MAX: nat := 0xFFFF_FFFF_FFFF_FFFF

  /** struct fskit_dir_entry: a snapshot of a child's type, file id and name. */
  datatype DirEnt = DirEnt(kind: int, fileId: nat, name: string)

  /** The cursor of a directory handle: the last name read ("" before the first read) and the EOF flag. */
  datatype Cursor = Cursor(currName: string, eof: bool)

  /**
   * Where an interrupted read resumes when its last name has left the
   * directory. AsWritten: after the first greater name, as the code does.
   * Intended: at that name, which nobody has read yet.
   */
  datatype Reading = AsWritten | Intended

  /** strncpy into a zeroed NAMEMAX+1 buffer: at most the first NAMEMAX characters. */
  function Truncate(name: string): (t: string)
    ensures |t| <= NAMEMAX && |t| <= |name| && t == name[..|t|]
    ensures |name| <= NAMEMAX <==> t == name
  {
    if |name| <= NAMEMAX then name else name[..NAMEMAX]
  }

  /** fskit_make_dir_entry: the entry's type and file id under the (truncated) name. */
  function MakeDirEnt(n: Node, name: string): (e: DirEnt)
    ensures e.kind == n.kind && e.fileId == n.fileId && e.name == Truncate(name)
  {
    DirEnt(n.kind, n.fileId, Truncate(name))
  }

  /** A child readdir leaves out: being garbage-collected or already dead. */
  predicate Hidden(n: Node)
  {
    n.deletionInProgress || n.kind == TYPE_DEAD
  }

  /** The record for member (name, r) of dent's set: "." describes dent itself, anything else the member. */
  function RecordOf(s: Store, dent: Ref, name: string, r: Ref): DirEnt
    requires dent in s && r in s
  {
    if name == "." then MakeDirEnt(s[dent], ".") else MakeDirEnt(s[r], name)
  }

  /**
   * The records fskit_readdir_itr collects from member i of d onwards:
   * hidden members are passed over, and the scan stops after limit records.
   */
  function Scan(s: Store, dent: Ref, d: ES.Dir, i: nat, limit: nat): (got: seq<DirEnt>)
    requires dent in s && RefsIn(d, s.Keys) && i <= |d|
    ensures |got| <= limit && |got| <= |d| - i
    decreases |d| - i
  {
    if i == |d| || limit == 0 then []
    else if Hidden(s[d[i].1]) then Scan(s, dent, d, i + 1, limit)
    else [RecordOf(s, dent, d[i].0, d[i].1)] + Scan(s, dent, d, i + 1, limit - 1)
  }

  /** The complete listing from member i on: the record of every member readdir does not hide, in set order. */
  function Live(s: Store, dent: Ref, d: ES.Dir, i: nat): (l: seq<DirEnt>)
    requires dent in s && RefsIn(d, s.Keys) && i <= |d|
    ensures |l| <= |d| - i
    decreases |d| - i
  {
    if i == |d| then []
    else if Hidden(s[d[i].1]) then Live(s, dent, d, i + 1)
    else [RecordOf(s, dent, d[i].0, d[i].1)] + Live(s, dent, d, i + 1)
  }

  function Min(a: nat, b: nat): nat { if a <= b then a else b }

  /**
   * The scan is the complete listing cut at the limit: at most limit
   * records, the hidden members skipped and none of the others.
   */
  lemma {:induction false} ScanIsLive(s: Store, dent: Ref, d: ES.Dir, i: nat, limit: nat)
    requires dent in s && RefsIn(d, s.Keys) && i <= |d|
    ensures Scan(s, dent, d, i, limit) == Live(s, dent, d, i)[..Min(limit, |Live(s, dent, d, i)|)]
    decreases |d| - i
  {
    if i == |d| || limit == 0 {
    } else if Hidden(s[d[i].1]) {
      ScanIsLive(s, dent, d, i + 1, limit);
      assert Scan(s, dent, d, i, limit) == Scan(s, dent, d, i + 1, limit);
    } else {
      ScanIsLive(s, dent, d, i + 1, limit - 1);
      var x := RecordOf(s, dent, d[i].0, d[i].1);
      var rest := Live(s, dent, d, i + 1);
      var n := Min(limit - 1, |rest|);
      ConsTake(x, rest, n);
      assert Scan(s, dent, d, i, limit) == [x] + rest[..n];
      assert Live(s, dent, d, i) == [x] + rest && Min(limit, |[x] + rest|) == n + 1;
    }
  }

  /** Taking n from r behind x is taking n + 1 from x followed by r. */
  lemma ConsTake<T>(x: T, r: seq<T>, n: nat)
    requires n <= |r|
    ensures [x] + r[..n] == ([x] + r)[..n + 1]
  {
  }

  /** Dropping k + 1 from x followed by r drops k from r; past the head, position k is r's k - 1. */
  lemma ConsDrop<T>(x: T, r: seq<T>, k: nat)
    requires k <= |r|
    ensures ([x] + r)[k + 1..] == r[k..] && r[0..] == r
    ensures ([x] + r)[0] == x && (0 < k ==> ([x] + r)[k] == r[k - 1])
  {
  }

  /** The position of name in d, as fskit_entry_set_find_itr locates it. */
  function IndexOf(d: ES.Dir, name: string): (k: Option<nat>)
    ensures k.Some? ==> k.value < |d| && d[k.value].0 == name
  {
    if |d| == 0 then None
    else if d[0].0 == name then Some(0)
    else match IndexOf(d[1..], name)
      case None => None
      case Some(j) => Some(j + 1)
  }

  /** The position of the first member whose name is strcmp-greater than name. */
  function FirstAbove(d: ES.Dir, name: string): (k: Option<nat>)
    ensures k.Some? ==> k.value < |d| && StrLess(name, d[k.value].0)
  {
    if |d| == 0 then None
    else if StrLess(name, d[0].0) then Some(0)
    else match FirstAbove(d[1..], name)
      case None => None
      case Some(j) => Some(j + 1)
  }

  /** The position found is the first one holding name, and there is none exactly when no member holds it. */
  lemma {:induction false} IndexOfSpec(d: ES.Dir, name: string)
    ensures IndexOf(d, name).None? <==> forall j :: 0 <= j < |d| ==> d[j].0 != name
    ensures IndexOf(d, name).Some? ==> forall j :: 0 <= j < IndexOf(d, name).value ==> d[j].0 != name
  {
    if |d| > 0 && d[0].0 != name {
      IndexOfSpec(d[1..], name);
      forall j | 0 < j < |d| ensures d[j] == d[1..][j - 1] {
      }
    }
  }

  /** The position found is the first one above name, and there is none exactly when no member is above it. */
  lemma {:induction false} FirstAboveSpec(d: ES.Dir, name: string)
    ensures FirstAbove(d, name).Some? ==> forall j :: 0 <= j < FirstAbove(d, name).value ==> !StrLess(name, d[j].0)
    ensures FirstAbove(d, name).None? ==> forall j :: 0 <= j < |d| ==> !StrLess(name, d[j].0)
  {
    if |d| > 0 && !StrLess(name, d[0].0) {
      FirstAboveSpec(d[1..], name);
      forall j | 0 < j < |d| ensures d[j] == d[1..][j - 1] {
      }
    }
  }

  /** fskit_readdir_find_start: the member named name, else the first member above it, else none. */
  function FindStartSpec(d: ES.Dir, name: string): (k: Option<nat>)
    ensures IndexOf(d, name).Some? ==> k == IndexOf(d, name)
    ensures IndexOf(d, name).None? ==> k == FirstAbove(d, name)
  {
    if IndexOf(d, name).Some? then IndexOf(d, name) else FirstAbove(d, name)
  }

  /** The member after position k, if there is one. */
  function Next(d: ES.Dir, k: nat): Option<nat>
  {
    if k + 1 < |d| then Some(k + 1) else None
  }

  /** Where fskit_readdir_lowlevel starts a read that has begun, from the last name read. */
  function Resume(reading: Reading, d: ES.Dir, name: string): (k: Option<nat>)
    ensures k.Some? ==> k.value < |d|
  {
    var f := FindStartSpec(d, name);
    if f.None? then None
    else if reading == Intended && IndexOf(d, name).None? then f
    else Next(d, f.value)
  }

  /** The position a read from this cursor starts at, or none when there is nothing to read. */
  function StartOf(reading: Reading, d: ES.Dir, cur: Cursor): (k: Option<nat>)
    ensures k.Some? ==> k.value < |d|
  {
    if |cur.currName| == 0 then (if |d| == 0 then None else Some(0))
    else Resume(reading, d, cur.currName)
  }

  /** The number of records a read of numChildren asks for. */
  function Limit(d: ES.Dir, numChildren: nat): nat
  {
    if numChildren == UINT64_MAX then ES.Count(d) else numChildren
  }

  /** What a read of dent needs: dent exists and every member of its set does. */
  ghost predicate Listable(s: Store, dent: Ref)
  {
    dent in s && RefsIn(s[dent].children, s.Keys)
  }

  /** In a well-formed store every entry can be read. */
  lemma WellFormedListable(s: Store, dent: Ref)
    requires WellFormed(s) && dent in s
    ensures Listable(s, dent) && ES.Valid(s[dent].children)
  {
    assert NodeOk(s.Keys, s[dent]);
  }

  /**
   * fskit_readdir_lowlevel: the records of one read and the cursor after
   * it. A cursor at EOF reads nothing; a read that starts on a member but
   * collects nothing sets EOF; a read that collects something leaves the
   * cursor on its last name.
   */
  function Lowlevel(reading: Reading, s: Store, dent: Ref, cur: Cursor, numChildren: nat): (res: (Option<seq<DirEnt>>, Cursor))
    requires Listable(s, dent)
    ensures cur.eof ==> res == (None, cur)
    ensures res.0.Some? ==> 0 < |res.0.value| <= Limit(s[dent].children, numChildren)
    ensures res.0.Some? ==> res.1 == Cursor(res.0.value[|res.0.value| - 1].name, false)
    ensures !cur.eof && res.0.None? ==> (res.1.eof <==> StartOf(reading, s[dent].children, cur).Some?)
  {
    if cur.eof then (None, cur)
    else
      var d := s[dent].children;
      var cur1 := if |cur.currName| == 0 && |d| > 0 then cur.(currName := Truncate(d[0].0)) else cur;
      var start := StartOf(reading, d, cur);
      if start.None? then (None, cur1)
      else
        var got := Scan(s, dent, d, start.value, Limit(d, numChildren));
        if |got| == 0 then (None, cur1.(eof := true))
        else (Some(got), Cursor(got[|got| - 1].name, false))
  }

  /** Every name in the set is non-empty and fits in a dir entry record. */
  ghost predicate ShortNames(d: ES.Dir)
  {
    forall k :: 0 <= k < |d| ==> 0 < |d[k].0| <= NAMEMAX
  }

  /** In a sorted set a member's own name finds that member. */
  lemma IndexOfMember(d: ES.Dir, k: nat)
    requires ES.Valid(d) && k < |d|
    ensures IndexOf(d, d[k].0) == Some(k)
  {
    var x := IndexOf(d, d[k].0);
    IndexOfSpec(d, d[k].0);
    assert x.Some?;
    var j := x.value;
    if j != k {
      assert j < k;
      assert StrLess(d[j].0, d[k].0);
      StrLessIrreflexive(d[k].0);
    }
  }

  /** The name a record carries is its member's name, when the names are short. */
  lemma RecordName(s: Store, dent: Ref, d: ES.Dir, k: nat)
    requires dent in s && RefsIn(d, s.Keys) && k < |d| && ShortNames(d)
    ensures RecordOf(s, dent, d[k].0, d[k].1).name == d[k].0
  {
  }

  /**
   * Two reads in a row on an unchanged directory, the second from the
   * cursor the first left, return consecutive parts of one complete
   * listing: together they are a prefix of it, so nothing is read twice and
   * nothing visible is skipped; when the second read finds nothing, the
   * first one had read everything that was left.
   */
  lemma ReadsContinue(reading: Reading, s: Store, dent: Ref, cur: Cursor, n1: nat, n2: nat,
                      got1: seq<DirEnt>, cur1: Cursor)
    returns (start: nat, live: seq<DirEnt>, got2: seq<DirEnt>)
    requires Listable(s, dent) && ES.Valid(s[dent].children) && ShortNames(s[dent].children)
    requires Lowlevel(reading, s, dent, cur, n1) == (Some(got1), cur1)
    ensures StartOf(reading, s[dent].children, cur) == Some(start)
    ensures live == Live(s, dent, s[dent].children, start)
    ensures Lowlevel(reading, s, dent, cur1, n2).0 == if |got2| == 0 then None else Some(got2)
    ensures |got1| + |got2| <= |live| && got1 + got2 == live[..|got1| + |got2|]
    ensures |got2| == 0 && n2 > 0 ==> got1 == live
  {
    var d := s[dent].children;
    start := ReadSome(reading, s, dent, cur, n1, got1, cur1);
    var j := LastRead(s, dent, d, start, Limit(d, n1), got1);
    ScanIsLive(s, dent, d, start, Limit(d, n1));
    RecordName(s, dent, d, j);
    ResumeAfterMember(reading, d, j);
    live := Live(s, dent, d, start);
    got2 := SecondRead(reading, s, dent, cur1, n2, j);
    Adjacent(live, Live(s, dent, d, j + 1), got1, got2);
    if |got2| == 0 && n2 > 0 {
      assert live[..|got1|] == live;
    }
  }

  /** A read that returned records started on a member, scanned from it, and left the cursor on its last name. */
  lemma ReadSome(reading: Reading, s: Store, dent: Ref, cur: Cursor, n: nat, got: seq<DirEnt>, cur1: Cursor)
    returns (start: nat)
    requires Listable(s, dent)
    requires Lowlevel(reading, s, dent, cur, n) == (Some(got), cur1)
    ensures !cur.eof && StartOf(reading, s[dent].children, cur) == Some(start) && start < |s[dent].children|
    ensures got == Scan(s, dent, s[dent].children, start, Limit(s[dent].children, n)) && 0 < |got|
    ensures cur1 == Cursor(got[|got| - 1].name, false)
  {
    start := StartOf(reading, s[dent].children, cur).value;
  }

  /**
   * A scan that returned records is a prefix of the complete listing, its
   * last record is that of some member j, and the listing after j is the
   * rest of the complete one.
   */
  lemma {:induction false} LastRead(s: Store, dent: Ref, d: ES.Dir, start: nat, limit: nat, got: seq<DirEnt>)
    returns (j: nat)
    requires dent in s && RefsIn(d, s.Keys) && start <= |d|
    requires got == Scan(s, dent, d, start, limit) && 0 < |got|
    ensures start <= j < |d| && got[|got| - 1] == RecordOf(s, dent, d[j].0, d[j].1)
    ensures |got| <= |Live(s, dent, d, start)|
    ensures Live(s, dent, d, j + 1) == Live(s, dent, d, start)[|got|..]
    decreases |d| - start
  {
    var r := Live(s, dent, d, start + 1);
    if Hidden(s[d[start].1]) {
      assert got == Scan(s, dent, d, start + 1, limit) && Live(s, dent, d, start) == r;
      j := LastRead(s, dent, d, start + 1, limit, got);
    } else {
      var x := RecordOf(s, dent, d[start].0, d[start].1);
      var rest := Scan(s, dent, d, start + 1, limit - 1);
      assert got == [x] + rest && Live(s, dent, d, start) == [x] + r;
      if |rest| == 0 {
        j := start;
        ConsFirst(x, r);
      } else {
        j := LastRead(s, dent, d, start + 1, limit - 1, rest);
        ConsLast(x, rest, r, Live(s, dent, d, j + 1));
      }
    }
  }

  /** The first element of a sequence and what follows it. */
  lemma ConsFirst<T>(x: T, r: seq<T>)
    ensures ([x] + r)[0] == x && ([x] + r)[1..] == r
  {
  }

  /** Putting x in front of two sequences, one a prefix of the other, keeps the prefix, its last element and what follows it. */
  lemma ConsLast<T>(x: T, rest: seq<T>, r: seq<T>, tail: seq<T>)
    requires 0 < |rest| <= |r| && tail == r[|rest|..]
    ensures ([x] + rest)[|rest|] == rest[|rest| - 1]
    ensures |[x] + rest| <= |[x] + r| && tail == ([x] + r)[|[x] + rest|..]
  {
    ConsDrop(x, r, |rest|);
  }

  /** A cursor left on a member's name resumes at the member after it. */
  lemma ResumeAfterMember(reading: Reading, d: ES.Dir, j: nat)
    requires ES.Valid(d) && j < |d| && 0 < |d[j].0|
    ensures StartOf(reading, d, Cursor(d[j].0, false)) == Next(d, j)
  {
    IndexOfMember(d, j);
  }

  /**
   * The read after one that ended on position j: the listing from j + 1
   * cut at the limit, and nothing only when that listing is empty.
   */
  lemma SecondRead(reading: Reading, s: Store, dent: Ref, cur1: Cursor, n2: nat, j: nat)
    returns (g: seq<DirEnt>)
    requires Listable(s, dent)
    requires j + 1 <= |s[dent].children| && !cur1.eof
    requires StartOf(reading, s[dent].children, cur1) == Next(s[dent].children, j)
    ensures Lowlevel(reading, s, dent, cur1, n2).0 == if |g| == 0 then None else Some(g)
    ensures |g| <= |Live(s, dent, s[dent].children, j + 1)| && g == Live(s, dent, s[dent].children, j + 1)[..|g|]
    ensures |g| == 0 && n2 > 0 ==> |Live(s, dent, s[dent].children, j + 1)| == 0
  {
    var d := s[dent].children;
    if j + 1 < |d| {
      ScanIsLive(s, dent, d, j + 1, Limit(d, n2));
      g := Scan(s, dent, d, j + 1, Limit(d, n2));
    } else {
      g := [];
    }
  }

  /** A prefix, then a prefix of what follows it, make one longer prefix. */
  lemma Adjacent<T>(live: seq<T>, rest: seq<T>, a: seq<T>, b: seq<T>)
    requires |a| <= |live| && a == live[..|a|] && rest == live[|a|..] && |b| <= |rest| && b == rest[..|b|]
    ensures |a| + |b| <= |live| && a + b == live[..|a| + |b|]
  {
    assert forall k :: 0 <= k < |b| ==> b[k] == live[|a| + k];
  }

  /**
   * With the intended resumption, a cursor whose name has left the set
   * reads on from the first member strcmp-greater than that name; those are
   * exactly the members from that position on, so none of them is skipped.
   * With no such member the read is over.
   */
  lemma ResumeAtFirstAbove(s: Store, dent: Ref, cur: Cursor, numChildren: nat)
    requires Listable(s, dent) && ES.Valid(s[dent].children) && !cur.eof && |cur.currName| > 0
    requires IndexOf(s[dent].children, cur.currName).None?
    ensures var d := s[dent].children;
      var j := FirstAbove(d, cur.currName);
      var got := Lowlevel(Intended, s, dent, cur, numChildren).0;
      && (j.None? ==> got.None?)
      && (j.Some? ==>
            && (forall k :: 0 <= k < |d| ==> (StrLess(cur.currName, d[k].0) <==> j.value <= k))
            && var want := Scan(s, dent, d, j.value, Limit(d, numChildren));
               got == if |want| == 0 then None else Some(want))
  {
    var d := s[dent].children;
    var j := FirstAbove(d, cur.currName);
    FirstAboveSpec(d, cur.currName);
    if j.Some? {
      forall k | j.value <= k < |d| ensures StrLess(cur.currName, d[k].0) {
        if k > j.value {
          StrLessTransitive(cur.currName, d[j.value].0, d[k].0);
        }
      }
    }
  }

  /** The code as written resumes one member later, after the first name above the vanished one. */
  lemma ResumeAsWrittenSkips(s: Store, dent: Ref, cur: Cursor, numChildren: nat)
    requires Listable(s, dent) && !cur.eof && |cur.currName| > 0
    requires IndexOf(s[dent].children, cur.currName).None?
    ensures var d := s[dent].children;
      var j := FirstAbove(d, cur.currName);
      j.Some? ==> StartOf(AsWritten, d, cur) == Next(d, j.value)
  {
  }

  /** A file "b" (entry 1) or "c" (entry 2) of the example directory. */
  function ExampleFile(id: nat): (n: Node)
    ensures forall dom :: NodeOk(dom, n)
    ensures n.kind == TYPE_FILE && n.fileId == id && !Hidden(n)
  {
    InitCommon(TYPE_FILE, id, 0, 0, 0x1A4, 0).(linkCount := 1)
  }

  /** The root after "a" was read by a cursor (". .. a" read) and then unlinked: ". .. b c" remain. */
  function VanishedExample(): (s: Store)
    ensures Listable(s, ROOT) && 1 in s && 2 in s && s[1] == ExampleFile(1) && s[2] == ExampleFile(2)
    ensures s[ROOT].children == [(".", ROOT), ("..", ROOT), ("b", 1), ("c", 2)]
  {
    var kids: ES.Dir := [(".", ROOT), ("..", ROOT), ("b", 1), ("c", 2)];
    map[ROOT := RootNode(0).(children := kids, numChildren := 2), 1 := ExampleFile(1), 2 := ExampleFile(2)]
  }

  /** The example is a store fskit can be in: counts are sound and the root's set is in strcmp order. */
  lemma VanishedExampleWellFormed()
    ensures WellFormed(VanishedExample())
  {
    var s := VanishedExample();
    var kids := s[ROOT].children;
    assert StrLess(".", "..") && StrLess("..", "b") && StrLess("b", "c");
    StrLessTransitive(".", "..", "b");
    StrLessTransitive("..", "b", "c");
    StrLessTransitive(".", "b", "c");
    assert A.Sorted(kids);
    assert NodeOk(s.Keys, s[ROOT]);
  }

  /** Where a read from the vanished "a" starts, and what the scans from "b" and from "c" collect. */
  lemma VanishedExampleScans()
    ensures var d := VanishedExample()[ROOT].children;
      && IndexOf(d, "a") == None && FirstAbove(d, "a") == Some(2) && Limit(d, UINT64_MAX) == 4
      && Scan(VanishedExample(), ROOT, d, 3, 4) == [DirEnt(TYPE_FILE, 2, "c")]
      && Scan(VanishedExample(), ROOT, d, 2, 4) == [DirEnt(TYPE_FILE, 1, "b"), DirEnt(TYPE_FILE, 2, "c")]
  {
    var s := VanishedExample();
    var d := s[ROOT].children;
    assert !StrLess("a", ".") && !StrLess("a", "..") && StrLess("a", "b");
    var d1 := d[1..];
    var d2 := d1[1..];
    assert d1 == [("..", ROOT), ("b", 1), ("c", 2)];
    assert d2 == [("b", 1), ("c", 2)];
    assert FirstAbove(d2, "a") == Some(0);
    assert FirstAbove(d1, "a") == Some(1);
    IndexOfSpec(d, "a");
    assert Scan(s, ROOT, d, 4, 3) == [];
    assert Scan(s, ROOT, d, 3, 4) == [DirEnt(TYPE_FILE, 2, "c")];
    assert Scan(s, ROOT, d, 2, 4) == [DirEnt(TYPE_FILE, 1, "b")] + Scan(s, ROOT, d, 3, 3);
  }

  /** Resuming from the vanished "a" as the code is written: only "c" comes back, "b" is skipped. */
  lemma VanishedExampleSkipsB()
    ensures Lowlevel(AsWritten, VanishedExample(), ROOT, Cursor("a", false), UINT64_MAX).0
            == Some([DirEnt(TYPE_FILE, 2, "c")])
  {
    VanishedExampleScans();
  }

  /** Resuming from the vanished "a" as intended: "b" and then "c". */
  lemma VanishedExampleKeepsB()
    ensures Lowlevel(Intended, VanishedExample(), ROOT, Cursor("a", false), UINT64_MAX).0
            == Some([DirEnt(TYPE_FILE, 1, "b"), DirEnt(TYPE_FILE, 2, "c")])
  {
    VanishedExampleScans();
  }

  /** fskit_listdir: a fresh cursor asking for UINT64_MAX records gets the complete listing. */
  lemma ListdirReadsAll(reading: Reading, s: Store, dent: Ref)
    requires Listable(s, dent)
    ensures var d := s[dent].children;
      var live := Live(s, dent, d, 0);
      var (got, cur) := Lowlevel(reading, s, dent, Cursor("", false), UINT64_MAX);
      && (|live| > 0 ==> got == Some(live))
      && (|live| == 0 ==> got.None? && (|d| > 0 <==> cur.eof))
  {
    var d := s[dent].children;
    if |d| > 0 {
      ScanIsLive(s, dent, d, 0, |d|);
      var live := Live(s, dent, d, 0);
      assert Min(|d|, |live|) == |live| && live[..|live|] == live;
    }
  }

  /** The list with positions in omitted set to NULL, as fskit_readdir_omit leaves it. */
  function Mask(xs: seq<DirEnt>, omitted: set<nat>): (m: seq<Option<DirEnt>>)
    ensures |m| == |xs|
    ensures forall k :: 0 <= k < |xs| ==> m[k] == if k in omitted then None else Some(xs[k])
  {
    seq(|xs|, k requires 0 <= k < |xs| => if k in omitted then None else Some(xs[k]))
  }

  /** The non-NULL records of a list, in their order. */
  function Present(xs: seq<Option<DirEnt>>): seq<DirEnt>
  {
    if |xs| == 0 then []
    else (if xs[0].Some? then [xs[0].value] else []) + Present(xs[1..])
  }

  lemma {:induction false} PresentSnoc(xs: seq<Option<DirEnt>>, x: Option<DirEnt>)
    ensures Present(xs + [x]) == Present(xs) + (if x.Some? then [x.value] else [])
  {
    if |xs| > 0 {
      assert (xs + [x])[1..] == xs[1..] + [x];
      PresentSnoc(xs[1..], x);
    } else {
      assert ([] + [x])[1..] == [];
    }
  }

  /** Present keeps exactly the non-NULL records; taking them all means there was no NULL. */
  lemma {:induction false} PresentMembers(xs: seq<Option<DirEnt>>)
    ensures |Present(xs)| <= |xs|
    ensures forall e :: e in Present(xs) <==> Some(e) in xs
    ensures |Present(xs)| == |xs| <==> forall k :: 0 <= k < |xs| ==> xs[k].Some?
  {
    if |xs| > 0 {
      PresentMembers(xs[1..]);
      assert xs == [xs[0]] + xs[1..];
      if |Present(xs)| == |xs| {
        forall k | 0 <= k < |xs| ensures xs[k].Some? {
          if k > 0 {
            assert xs[k] == xs[1..][k - 1];
          }
        }
      }
    }
  }

  /** With nothing omitted the list given to the route comes back whole. */
  lemma {:induction false} PresentMaskNone(xs: seq<DirEnt>)
    ensures Present(Mask(xs, {})) == xs
  {
    if |xs| > 0 {
      assert Mask(xs, {})[1..] == Mask(xs[1..], {});
      PresentMaskNone(xs[1..]);
    }
  }

  /** The records left after omission are those at positions the route did not omit. */
  lemma PresentMaskMembers(xs: seq<DirEnt>, omitted: set<nat>)
    ensures forall e :: e in Present(Mask(xs, omitted)) <==>
              exists k :: 0 <= k < |xs| && k !in omitted && xs[k] == e
  {
    var m := Mask(xs, omitted);
    PresentMembers(m);
    forall e ensures e in Present(m) <==> exists k :: 0 <= k < |xs| && k !in omitted && xs[k] == e {
      if Some(e) in m {
        var k :| 0 <= k < |m| && m[k] == Some(e);
        assert k !in omitted && xs[k] == e;
      }
      if exists k :: 0 <= k < |xs| && k !in omitted && xs[k] == e {
        var k :| 0 <= k < |xs| && k !in omitted && xs[k] == e;
        assert m[k] == Some(e);
      }
    }
  }

  /** A readdir route's answer: how it was dispatched, and the positions it omitted. */
  type ReaddirHook = seq<DirEnt> -> (Route.Dispatch, set<nat>)

  /**
   * fskit_readdir: -EBADF for a handle without a directory; otherwise a
   * low-level read. A read with records goes to the readdir route, and a
   * status other than 0 from it (any "no route" answer is 0) throws the
   * records away and is returned; otherwise the records the route did not
   * omit are returned, compacted. The cursor moves either way.
   */
  function ReaddirSpec(s: Store, dent: Option<Ref>, cur: Cursor, numChildren: nat, hook: ReaddirHook)
    : (res: (int, Option<seq<DirEnt>>, Cursor))
    requires dent.Some? ==> Listable(s, dent.value)
    ensures dent.None? ==> res == (-EBADF, None, cur)
    ensures dent.Some? ==> res.2 == Lowlevel(Intended, s, dent.value, cur, numChildren).1
    ensures res.1.Some? ==> res.0 == 0
  {
    if dent.None? then (-EBADF, None, cur)
    else
      var (got, cur1) := Lowlevel(Intended, s, dent.value, cur, numChildren);
      if got.None? then (0, None, cur1)
      else
        var (d, omitted) := hook(got.value);
        var rc := Route.RunUser(d);
        if rc != 0 then (rc, None, cur1)
        else (0, Some(Present(Mask(got.value, if d.Called? then omitted else {}))), cur1)
  }

  /**
   * What the route does to a read that found records: a failing route
   * leaves no records and its status; no route leaves every record; a
   * route returning 0 leaves exactly the records it did not omit.
   */
  lemma ReaddirRoute(s: Store, dent: Ref, cur: Cursor, numChildren: nat, hook: ReaddirHook)
    requires Listable(s, dent)
    requires Lowlevel(Intended, s, dent, cur, numChildren).0.Some?
    ensures var got := Lowlevel(Intended, s, dent, cur, numChildren).0.value;
      var (d, omitted) := hook(got);
      var res := ReaddirSpec(s, Some(dent), cur, numChildren, hook);
      && (d.Called? && d.cbrc != 0 ==> res.0 == d.cbrc && res.1 == None)
      && (d.NoRoute? ==> res.0 == 0 && res.1 == Some(got))
      && (d == Route.Called(0) ==>
            && res.0 == 0 && res.1.Some?
            && forall e :: e in res.1.value <==> exists k :: 0 <= k < |got| && k !in omitted && got[k] == e)
  {
    var got := Lowlevel(Intended, s, dent, cur, numChildren).0.value;
    PresentMaskNone(got);
    PresentMaskMembers(got, hook(got).1);
  }

  /** A NULL-terminated list holding xs: the records, then NULL in every slot after them. */
  ghost predicate Holds(a: array<Option<DirEnt>>, n: nat, xs: seq<DirEnt>)
    reads a
  {
    n == |xs| && n < a.Length
    && (forall k :: 0 <= k < n ==> a[k] == Some(xs[k]))
    && (forall k :: n <= k < a.Length ==> a[k] == None)
  }

  /**
   * fskit_readdir_itr: fills a list of numChildren + 1 slots from member
   * start of dent's set on; its contents and count are the scan's.
   */
  method ReaddirItr(core: Core, dent: Ref, start: nat, numChildren: nat)
    returns (dirEnts: array<Option<DirEnt>>, numRead: nat)
    requires Listable(core.ents, dent) && start <= |core.ents[dent].children|
    ensures fresh(dirEnts) && dirEnts.Length == numChildren + 1
    ensures Holds(dirEnts, numRead, Scan(core.ents, dent, core.ents[dent].children, start, numChildren))
  {
    var s := core.ents;
    var d := s[dent].children;
    dirEnts := new Option<DirEnt>[numChildren + 1](_ => None);
    numRead := 0;
    var i := start;
    ghost var want := Scan(s, dent, d, start, numChildren);
    SuffixAll(want);
    while i < |d| && numRead < numChildren
      invariant start <= i <= |d| && numRead <= numChildren && numRead <= |want|
      invariant Scan(s, dent, d, i, numChildren - numRead) == want[numRead..]
      invariant forall k :: 0 <= k < numRead ==> dirEnts[k] == Some(want[k])
      invariant forall k :: numRead <= k < dirEnts.Length ==> dirEnts[k] == None
      decreases |d| - i
    {
      var (name, fent) := d[i];
      if !Hidden(s[fent]) {
        var e := if name == "." then MakeDirEnt(s[dent], ".") else MakeDirEnt(s[fent], name);
        SuffixStep(want, numRead, e, Scan(s, dent, d, i + 1, numChildren - numRead - 1));
        dirEnts[numRead] := Some(e);
        numRead := numRead + 1;
      }
      i := i + 1;
    }
  }

  /** Dropping nothing from a sequence leaves it whole. */
  lemma SuffixAll<T>(w: seq<T>)
    ensures w[0..] == w
  {
  }

  /** A suffix that starts with e: e is at that position and the rest is the next suffix. */
  lemma SuffixStep<T>(w: seq<T>, m: nat, e: T, r: seq<T>)
    requires m <= |w| && w[m..] == [e] + r
    ensures m < |w| && w[m] == e && w[m + 1..] == r
  {
    assert w[m..][0] == e;
    assert w[m + 1..] == w[m..][1..];
  }

  /** fskit_listdir_locked: -EINVAL for a non-directory, else every visible child. */
  method ListdirLocked(core: Core, dent: Ref) returns (dirEnts: Option<array<Option<DirEnt>>>, numRead: nat, err: int)
    requires core.Valid() && dent in core.ents
    ensures core.ents[dent].kind != TYPE_DIR ==> err == -EINVAL && dirEnts.None? && numRead == 0
    ensures core.ents[dent].kind == TYPE_DIR ==>
              err == 0 && dirEnts.Some? && fresh(dirEnts.value) &&
              Holds(dirEnts.value, numRead, Live(core.ents, dent, core.ents[dent].children, 0))
  {
    if core.ents[dent].kind != TYPE_DIR {
      return None, 0, -EINVAL;
    }
    var d := core.ents[dent].children;
    assert NodeOk(core.ents.Keys, core.ents[dent]);
    var list;
    list, numRead := ReaddirItr(core, dent, 0, ES.Count(d));
    ScanIsLive(core.ents, dent, d, 0, |d|);
    dirEnts, err := Some(list), 0;
  }

  /** fskit_readdir_omit: the slot becomes NULL; always 0. */
  method Omit(dents: array<Option<DirEnt>>, i: nat) returns (rc: int)
    requires i < dents.Length
    modifies dents
    ensures rc == 0 && dents[..] == old(dents[..])[i := None]
  {
    dents[i] := None;
    rc := 0;
  }

  /**
   * fskit_readdir_compactify_list: the non-NULL records of the first n
   * slots, in order, as a NULL-terminated list; the list itself when it has
   * no NULL among them, a new one otherwise.
   */
  method Compactify(entries: array<Option<DirEnt>>, n: nat) returns (out: array<Option<DirEnt>>, newSize: nat)
    requires n < entries.Length && forall k :: n <= k < entries.Length ==> entries[k] == None
    ensures Holds(out, newSize, Present(entries[..n]))
    ensures (forall k :: 0 <= k < n ==> entries[k].Some?) <==> out == entries
    ensures out != entries ==> fresh(out)
  {
    ghost var xs := entries[..n];
    newSize := CountPresent(entries, n);
    PresentMembers(xs);
    if newSize == n {
      forall k | 0 <= k < n ensures entries[k] == Some(Present(xs)[k]) {
        PresentAllSome(xs, k);
      }
      return entries, n;
    }
    out := CopyPresent(entries, n, newSize);
  }

  /** The first pass of fskit_readdir_compactify_list: n less one per NULL slot. */
  method CountPresent(entries: array<Option<DirEnt>>, n: nat) returns (newSize: nat)
    requires n <= entries.Length
    ensures newSize == |Present(entries[..n])|
  {
    ghost var xs := entries[..n];
    newSize := n;
    var i := 0;
    while i < n
      invariant 0 <= i <= n && newSize + i == n + |Present(xs[..i])|
    {
      PresentSnoc(xs[..i], xs[i]);
      assert xs[..i + 1] == xs[..i] + [xs[i]];
      if entries[i].None? {
        newSize := newSize - 1;
      }
      i := i + 1;
    }
    assert xs[..n] == xs;
  }

  /** The second pass: the non-NULL slots, in order, into a fresh list of newSize + 1 slots. */
  method CopyPresent(entries: array<Option<DirEnt>>, n: nat, newSize: nat) returns (out: array<Option<DirEnt>>)
    requires n <= entries.Length && newSize == |Present(entries[..n])|
    ensures fresh(out) && Holds(out, newSize, Present(entries[..n]))
  {
    ghost var xs := entries[..n];
    out := new Option<DirEnt>[newSize + 1](_ => None);
    var j := 0;
    var i := 0;
    assert xs[0..] == xs;
    while i < n
      invariant 0 <= i <= n && j == |Present(xs[..i])|
      invariant j + |Present(xs[i..])| == newSize
      invariant forall k :: 0 <= k < j ==> out[k] == Some(Present(xs[..i])[k])
      invariant forall k :: j <= k < out.Length ==> out[k] == None
    {
      PresentSnoc(xs[..i], xs[i]);
      assert xs[..i + 1] == xs[..i] + [xs[i]];
      assert xs[i..][1..] == xs[i + 1..];
      if entries[i].Some? {
        out[j] := entries[i];
        j := j + 1;
      }
      i := i + 1;
    }
    assert xs[..n] == xs;
  }

  /** In a list without NULLs, Present lists the records slot by slot. */
  lemma {:induction false} PresentAllSome(xs: seq<Option<DirEnt>>, k: nat)
    requires k < |xs| && forall m :: 0 <= m < |xs| ==> xs[m].Some?
    ensures k < |Present(xs)| && xs[k] == Some(Present(xs)[k])
  {
    PresentMembers(xs);
    if k > 0 {
      assert xs[k] == xs[1..][k - 1];
      PresentAllSome(xs[1..], k - 1);
    }
  }

  /** The readdir route's handling: NULL out what it omits, among the records read. */
  method OmitAll(list: array<Option<DirEnt>>, n: nat, xs: seq<DirEnt>, omitted: set<nat>)
    requires Holds(list, n, xs)
    modifies list
    ensures list[..n] == Mask(xs, omitted)
    ensures forall k :: n <= k < list.Length ==> list[k] == None
  {
    var i := 0;
    while i < n
      invariant 0 <= i <= n
      invariant forall k :: 0 <= k < i ==> list[k] == Mask(xs, omitted)[k]
      invariant forall k :: i <= k < n ==> list[k] == Some(xs[k])
      invariant forall k :: n <= k < list.Length ==> list[k] == None
    {
      if i in omitted {
        var _ := Omit(list, i);
      }
      i := i + 1;
    }
    assert list[..n] == Mask(xs, omitted);
  }

  /**
   * A directory handle (struct fskit_dir_handle): the directory it reads
   * (none once invalidated), the path and file id it was opened with, the
   * cursor, and the application's handle data.
   */
  class DirHandle {
    var dent: Option<Ref>
    var path: string
    var fileId: nat
    var currName: string
    var eof: bool
    var appData: int

    /** fskit_readdir_lowlevel on this handle. */
    method ReadLowlevel(core: Core, numChildren: nat) returns (dirEnts: Option<array<Option<DirEnt>>>, numRead: nat)
      requires dent.Some? && Listable(core.ents, dent.value)
      modifies this
      ensures dent == old(dent) && path == old(path) && fileId == old(fileId) && appData == old(appData)
      ensures var (got, cur) := Lowlevel(Intended, core.ents, dent.value, old(Cursor(currName, eof)), numChildren);
        && Cursor(currName, eof) == cur
        && (got.None? ==> dirEnts.None? && numRead == 0)
        && (got.Some? ==> dirEnts.Some? && fresh(dirEnts.value) && Holds(dirEnts.value, numRead, got.value))
    {
      var r := dent.value;
      var d := core.ents[r].children;
      if eof {
        return None, 0;
      }
      var first := StartPosition(d, currName);
      if |currName| == 0 && |d| > 0 {
        currName := Truncate(d[0].0);
      }
      if first.None? {
        return None, 0;
      }
      var start := first.value;
      var limit := numChildren;
      if limit == UINT64_MAX {
        limit := ES.Count(d);
      }
      var list, n := ReaddirItr(core, r, start, limit);
      if n == 0 {
        eof := true;
        return None, 0;
      }
      currName := list[n - 1].value.name;
      dirEnts, numRead := Some(list), n;
    }

    /** fskit_readdir on this handle. */
    method Readdir(core: Core, numChildren: nat, hook: ReaddirHook)
      returns (dents: Option<array<Option<DirEnt>>>, numRead: nat, err: int)
      requires core.Valid() && (dent.Some? ==> dent.value in core.ents)
      modifies this
      ensures dent == old(dent) && path == old(path) && fileId == old(fileId) && appData == old(appData)
      ensures var (rc, got, cur) := ReaddirSpec(core.ents, dent, old(Cursor(currName, eof)), numChildren, hook);
        && err == rc && Cursor(currName, eof) == cur
        && (got.None? ==> dents.None? && numRead == 0)
        && (got.Some? ==> dents.Some? && Holds(dents.value, numRead, got.value))
    {
      if dent.None? {
        return None, 0, -EBADF;
      }
      WellFormedListable(core.ents, dent.value);
      var list;
      list, numRead := ReadLowlevel(core, numChildren);
      if list.None? {
        return None, 0, 0;
      }
      ghost var want := Lowlevel(Intended, core.ents, dent.value, old(Cursor(currName, eof)), numChildren).0.value;
      var got := Present(list.value[..numRead]);
      assert list.value[..numRead] == Mask(want, {});
      PresentMaskNone(want);
      var (d, omitted) := hook(got);
      var rc := Route.RunUser(d);
      if rc != 0 {
        return None, 0, rc;
      }
      OmitAll(list.value, numRead, got, if d.Called? then omitted else {});
      var out, newSize := Compactify(list.value, numRead);
      dents, numRead, err := Some(out), newSize, 0;
    }

    /** fskit_listdir: fskit_readdir asking for every child. */
    method Listdir(core: Core, hook: ReaddirHook) returns (dents: Option<array<Option<DirEnt>>>, numRead: nat, err: int)
      requires core.Valid() && (dent.Some? ==> dent.value in core.ents)
      modifies this
      ensures dent == old(dent) && path == old(path) && fileId == old(fileId) && appData == old(appData)
      ensures var (rc, got, cur) := ReaddirSpec(core.ents, dent, old(Cursor(currName, eof)), UINT64_MAX, hook);
        && err == rc && Cursor(currName, eof) == cur
        && (got.None? ==> dents.None? && numRead == 0)
        && (got.Some? ==> dents.Some? && Holds(dents.value, numRead, got.value))
    {
      dents, numRead, err := Readdir(core, UINT64_MAX, hook);
    }
  }

  /**
   * Where fskit_readdir_lowlevel starts: the first member for a cursor that
   * has not read yet, otherwise the member after the one it last read, or
   * the first member above a name that has left the set.
   */
  method StartPosition(d: ES.Dir, currName: string) returns (start: Option<nat>)
    ensures start == StartOf(Intended, d, Cursor(currName, false))
  {
    if |currName| == 0 {
      if |d| == 0 {
        return None;
      }
      return Some(0);
    }
    var f := FindStart(d, currName);
    if f.None? {
      return None;
    }
    if IndexOf(d, currName).Some? {
      if f.value + 1 >= |d| {
        return None;
      }
      return Some(f.value + 1);
    }
    return f;
  }

  /** fskit_readdir_find_start: look the name up, else scan for the first greater name. */
  method FindStart(d: ES.Dir, name: string) returns (start: Option<nat>)
    ensures start == FindStartSpec(d, name)
  {
    var member := IndexOf(d, name);
    if member.Some? {
      return member;
    }
    var i := 0;
    while i < |d|
      invariant 0 <= i <= |d| && forall j :: 0 <= j < i ==> !StrLess(name, d[j].0)
    {
      if StrLess(name, d[i].0) {
        FirstAboveAt(d, name, i);
        return Some(i);
      }
      i := i + 1;
    }
    FirstAboveNone(d, name);
    return None;
  }

  /** The first member above name is the first position where the scan sees one. */
  lemma {:induction false} FirstAboveAt(d: ES.Dir, name: string, i: nat)
    requires i < |d| && StrLess(name, d[i].0) && forall j :: 0 <= j < i ==> !StrLess(name, d[j].0)
    ensures FirstAbove(d, name) == Some(i)
  {
    if i > 0 {
      assert !StrLess(name, d[0].0);
      forall j | 0 <= j < i - 1 ensures !StrLess(name, d[1..][j].0) {
        assert d[1..][j] == d[j + 1];
      }
      FirstAboveAt(d[1..], name, i - 1);
    }
  }

  /** No member above name: none found. */
  lemma {:induction false} FirstAboveNone(d: ES.Dir, name: string)
    requires forall j :: 0 <= j < |d| ==> !StrLess(name, d[j].0)
    ensures FirstAbove(d, name) == None
  {
    if |d| > 0 {
      assert !StrLess(name, d[0].0);
      forall j | 0 <= j < |d| - 1 ensures !StrLess(name, d[1..][j].0) {
        assert d[1..][j] == d[j + 1];
      }
      FirstAboveNone(d[1..], name);
    }
  }
}
