// Stat (libfskit/stat.c): the st_mode of an entry, the stat record of an
// entry, and fskit_stat, which holds a reference around the user route.
module Stat {
  import opened Opt
  import opened Errno
  import opened Defs
  import PathStr
  import Route
  import opened Entry
  import opened Resolve
  import Chmod
  import Trunc

  /** The file-type bits of <sys/stat.h>. */
  const S_IFMT: Mode := 0xF000
  const S_IFSOCK: Mode := 0xC000
  const S_IFLNK: Mode := 0xA000
  const S_IFREG: Mode := 0x8000
  const S_IFBLK: Mode := 0x6000
  const S_IFDIR: Mode := 0x4000
  const S_IFCHR: Mode := 0x2000
  const S_IFIFO: Mode := 0x1000

  /** -EINVAL as a 32-bit mode_t, what fskit_fullmode returns for an unknown type. */
  const EINVAL_MODE: Mode := 0xFFFF_FFEA

  /** The seven entry types that have a file-type code. */
  predicate LiveKind(kind: int)
  {
    kind in {TYPE_FILE, TYPE_DIR, TYPE_FIFO, TYPE_SOCK, TYPE_BLK, TYPE_CHR, TYPE_LNK}
  }

  /** The file-type code of a live entry type: bits inside S_IFMT only. */
  function TypeBits(kind: int): (t: Mode)
    requires LiveKind(kind)
    ensures t & !S_IFMT == 0 && t != 0
  {
    if kind == TYPE_FILE then S_IFREG
    else if kind == TYPE_DIR then S_IFDIR
    else if kind == TYPE_FIFO then S_IFIFO
    else if kind == TYPE_SOCK then S_IFSOCK
    else if kind == TYPE_BLK then S_IFBLK
    else if kind == TYPE_CHR then S_IFCHR
    else S_IFLNK
  }

  /**
   * fskit_fullmode: the type code ORed into the mode for a live type;
   * -EINVAL (as an unsigned mode_t) for any other type, DEAD included.
   * The bits outside S_IFMT are the mode's own.
   */
  function FullMode(kind: int, mode: Mode): (m: Mode)
    ensures !LiveKind(kind) ==> m == EINVAL_MODE
    ensures LiveKind(kind) ==> m & !S_IFMT == mode & !S_IFMT
  {
    if LiveKind(kind) then
      OrOutsideType(TypeBits(kind), mode);
      TypeBits(kind) | mode
    else EINVAL_MODE
  }

  /** ORing in bits inside S_IFMT leaves the bits outside it alone. */
  lemma OrOutsideType(t: Mode, mode: Mode)
    requires t & !S_IFMT == 0
    ensures (t | mode) & !S_IFMT == mode & !S_IFMT
  {
  }

  /** ORing a type code into a mode without type bits keeps both apart. */
  lemma OrSeparates(t: Mode, mode: Mode)
    requires t & !S_IFMT == 0 && mode & S_IFMT == 0
    ensures (t | mode) & S_IFMT == t && (t | mode) & !S_IFMT == mode
  {
  }

  /** The entry type a file-type code stands for (DEAD for none). */
  function KindOfMode(m: Mode): (kind: int)
    ensures kind == TYPE_DEAD || LiveKind(kind)
  {
    var t := m & S_IFMT;
    if t == S_IFREG then TYPE_FILE
    else if t == S_IFDIR then TYPE_DIR
    else if t == S_IFIFO then TYPE_FIFO
    else if t == S_IFSOCK then TYPE_SOCK
    else if t == S_IFBLK then TYPE_BLK
    else if t == S_IFCHR then TYPE_CHR
    else if t == S_IFLNK then TYPE_LNK
    else TYPE_DEAD
  }

  /**
   * For a mode without type bits, the full mode of a live entry is its
   * type code next to its permission bits: the code gives the type back,
   * and the rest gives the mode back.
   */
  lemma FullModeRoundTrip(kind: int, mode: Mode)
    requires LiveKind(kind) && mode & S_IFMT == 0
    ensures FullMode(kind, mode) & S_IFMT == TypeBits(kind)
    ensures KindOfMode(FullMode(kind, mode)) == kind
    ensures FullMode(kind, mode) & !S_IFMT == mode
  {
    OrSeparates(TypeBits(kind), mode);
  }

  /** Two live entries with different types never share a full mode, whatever their modes. */
  lemma FullModeSeparatesTypes(k1: int, k2: int, m1: Mode, m2: Mode)
    requires LiveKind(k1) && LiveKind(k2) && k1 != k2
    requires m1 & S_IFMT == 0 && m2 & S_IFMT == 0
    ensures FullMode(k1, m1) != FullMode(k2, m2)
  {
    FullModeRoundTrip(k1, m1);
    FullModeRoundTrip(k2, m2);
  }

  /** The fields of struct stat that fskit_entry_fstat fills in; times are whole clock readings. */
  datatype StatBuf = StatBuf(
    dev: int, ino: nat, mode: Mode, nlink: int, uid: int, gid: int, rdev: int,
    size: int, blksize: int, blocks: int, atime: int, mtime: int, ctime: int)

  /**
   * fskit_entry_fstat: the device and block fields are 0; everything
   * else is read off the entry, the mode through fskit_fullmode.
   */
  function EntryStat(n: Node): (st: StatBuf)
    ensures st.dev == 0 && st.blksize == 0 && st.blocks == 0
    ensures st.ino == n.fileId && st.nlink == n.linkCount && st.uid == n.owner && st.gid == n.group
    ensures st.rdev == n.dev && st.size == n.size && st.mode == FullMode(n.kind, n.mode)
    ensures st.atime == n.atime && st.mtime == n.mtime && st.ctime == n.ctime
  {
    StatBuf(0, n.fileId, FullMode(n.kind, n.mode), n.linkCount, n.owner, n.group, n.dev,
            n.size, 0, 0, n.atime, n.mtime, n.ctime)
  }

  /**
   * fskit_stat. The route is given the entry, or nothing when the path
   * does not resolve; hook says what the stat route does for each. The
   * resolution is fskit_entry_ref's, as uid 0, so the caller's ids play
   * no part. The record is returned whenever the entry resolved.
   */
  function StatSpec(s: Store, path: string, user: int, group: int,
                    hook: Option<Ref> -> Route.Dispatch, destroyHook: Route.Dispatch): (res: (int, Option<StatBuf>, Store))
    requires WellFormed(s)
    ensures WellFormed(res.2) && res.2.Keys == s.Keys
    ensures PathStr.BasenameLenOf(path) >= NAMEMAX ==> res == (-ENAMETOOLONG, None, s)
  {
    if PathStr.BasenameLenOf(path) >= NAMEMAX then (-ENAMETOOLONG, None, s)
    else
      var (_, ent, s1) := RefStore(s, path);
      if ent.None? then (Route.RunUser(hook(None)), None, s)
      else
        var st := EntryStat(s1[ent.value]);
        var rc := Route.RunUser(hook(ent));
        assert s1[ent.value].openCount >= 1;
        var (_, s2) := UnrefStore(s1, ent.value, destroyHook);
        (rc, Some(st), s2)
  }

  /** The entry fskit_stat resolves: the one uid 0 reaches. */
  function StatTarget(s: Store, path: string): Outcome
    requires WellFormed(s)
  {
    ResolveSpec(s, path, ROOT_USER_ID, 0, false)
  }

  /**
   * What fskit_stat answers once the name is short enough: for a path
   * that resolves, the stat route's status and the entry's record; for
   * one that does not, the route's status when asked about no entry, and
   * no record. The store always ends as it began, the open count included.
   */
  lemma StatOutcome(s: Store, path: string, user: int, group: int,
                    hook: Option<Ref> -> Route.Dispatch, destroyHook: Route.Dispatch)
    requires WellFormed(s) && PathStr.BasenameLenOf(path) < NAMEMAX
    ensures var o := StatTarget(s, path);
      var (rc, st, s') := StatSpec(s, path, user, group, hook, destroyHook);
      && s' == s
      && (o.err != 0 ==> rc == Route.RunUser(hook(None)) && st == None)
      && (o.err == 0 ==>
            o.ent.Some? && o.ent.value in s && rc == Route.RunUser(hook(o.ent)) && st == Some(EntryStat(s[o.ent.value])))
  {
    ResolveOutcome(s, path, ROOT_USER_ID, 0, false);
    if StatTarget(s, path).err == 0 {
      RefUnrefRoundTrip(s, path, destroyHook);
      var r := StatTarget(s, path).ent.value;
      assert EntryStat(s[r].(openCount := s[r].openCount + 1)) == EntryStat(s[r]);
    }
  }

  /** With no stat route, a path that does not resolve still gets 0, and no record. */
  lemma StatMissingNoRoute(s: Store, path: string, user: int, group: int, destroyHook: Route.Dispatch)
    requires WellFormed(s) && PathStr.BasenameLenOf(path) < NAMEMAX && StatTarget(s, path).err != 0
    ensures StatSpec(s, path, user, group, _ => Route.NoRoute, destroyHook) == (0, None, s)
  {
    ResolveOutcome(s, path, ROOT_USER_ID, 0, false);
  }

  /** The caller's uid and gid do not change what fskit_stat answers. */
  lemma StatIgnoresCaller(s: Store, path: string, u1: int, g1: int, u2: int, g2: int,
                          hook: Option<Ref> -> Route.Dispatch, destroyHook: Route.Dispatch)
    requires WellFormed(s)
    ensures StatSpec(s, path, u1, g1, hook, destroyHook) == StatSpec(s, path, u2, g2, hook, destroyHook)
  {
  }

  /**
   * The name limit of fskit_stat is one shorter than that of the others: a
   * basename of exactly NAMEMAX characters is refused here and not by
   * fskit_trunc.
   */
  lemma StatNameLimitStricter(s: Store, path: string, user: int, group: int, newSize: int,
                              hook: Option<Ref> -> Route.Dispatch, truncHook: Route.Dispatch,
                              destroyHook: Route.Dispatch, now: int)
    requires WellFormed(s) && PathStr.BasenameLenOf(path) == NAMEMAX
    ensures StatSpec(s, path, user, group, hook, destroyHook).0 == -ENAMETOOLONG
    ensures Trunc.TruncSpec(s, path, user, group, newSize, truncHook, destroyHook, now).0 != -ENAMETOOLONG
  {
    ResolveOutcome(s, path, user, group, false);
  }

  /** After a successful chmod, fskit_stat of the same path reports the new mode with the entry's type code. */
  lemma StatAfterChmod(s: Store, path: string, user: int, group: int, mode: Mode,
                       hook: Option<Ref> -> Route.Dispatch, destroyHook: Route.Dispatch)
    requires WellFormed(s) && PathStr.BasenameLenOf(path) < NAMEMAX
    requires Chmod.ChmodSpec(s, path, user, group, mode).0 == 0
    ensures var s1 := Chmod.ChmodSpec(s, path, user, group, mode).1;
      var r := ResolveSpec(s, path, user, group, false).ent.value;
      var st := StatSpec(s1, path, user, group, hook, destroyHook).1;
      st.Some? && st.value.mode == FullMode(s[r].kind, mode)
  {
    Chmod.ChmodOutcome(s, path, user, group, mode);
    var r := ResolveSpec(s, path, user, group, false).ent.value;
    var b := s[r].(mode := mode);
    var s1 := s[r := b];
    RootResolvesAsUser(s, path, user, group, 0, false);
    RootResolveIgnoresPermissions(s, r, b, path, 0, false);
    StatOutcome(s1, path, user, group, hook, destroyHook);
  }

  /** fskit_stat on the core. */
  method StatPath(core: Core, path: string, user: int, group: int,
                  hook: Option<Ref> -> Route.Dispatch, destroyHook: Route.Dispatch) returns (rc: int, st: Option<StatBuf>)
    requires core.Valid()
    modifies core
    ensures core.Valid()
    ensures (rc, st, core.ents) == StatSpec(old(core.ents), path, user, group, hook, destroyHook)
  {
    var len := PathStr.BasenameLen(path);
    if len >= NAMEMAX {
      return -ENAMETOOLONG, None;
    }
    var refRc, ent := Resolve.Ref(core, path);
    if ent.None? {
      rc := Route.RunUser(hook(None));
      return rc, None;
    }
    st := Some(EntryStat(core.ents[ent.value]));
    rc := Route.RunUser(hook(ent));
    var unrefRc := Resolve.Unref(core, ent.value, destroyHook);
  }
}
