// Constants and permission tests of include/fskit/entry.h.
module Defs {

  /** Longest name of one path component. */
  const NAMEMAX: int := 255
  /** Longest path (PATH_MAX of <limits.h>). */
  const PATH_MAX: int := 4096

  const TYPE_DEAD: int := 0
  const TYPE_FILE: int := 1
  const TYPE_DIR: int := 2
  const TYPE_FIFO: int := 3
  const TYPE_SOCK: int := 4
  const TYPE_CHR: int := 5
  const TYPE_BLK: int := 6
  const TYPE_LNK: int := 7

  const ROOT_USER_ID: int := 0

  /** mode_t: 32 bits. */
  type Mode = bv32

  const S_IRUSR: Mode := 0x100
  const S_IWUSR: Mode := 0x80
  const S_IXUSR: Mode := 0x40
  const S_IRGRP: Mode := 0x20
  const S_IWGRP: Mode := 0x10
  const S_IXGRP: Mode := 0x8
  const S_IROTH: Mode := 0x4
  const S_IWOTH: Mode := 0x2
  const S_IXOTH: Mode := 0x1

  /** The three permission tests of entry.h share one shape; they differ in the bits tested. */
  datatype Access = Read | Write | Search

  function OtherBit(a: Access): Mode
  {
    match a
    case Read => S_IROTH
    case Write => S_IWOTH
    case Search => S_IXOTH
  }

  function GroupBit(a: Access): Mode
  {
    match a
    case Read => S_IRGRP
    case Write => S_IWGRP
    case Search => S_IXGRP
  }

  function OwnerBit(a: Access): Mode
  {
    match a
    case Read => S_IRUSR
    case Write => S_IWUSR
    case Search => S_IXUSR
  }

  /**
   * Caller (user, group) may access an entry owned by (nodeUser, nodeGroup)
   * with the given mode: root always, otherwise through the other, group or
   * owner bit.
   */
  predicate Allows(a: Access, mode: Mode, nodeUser: int, nodeGroup: int, user: int, group: int)
  {
    user == ROOT_USER_ID
    || mode & OtherBit(a) != 0
    || (nodeGroup == group && mode & GroupBit(a) != 0)
    || (nodeUser == user && mode & OwnerBit(a) != 0)
  }

  predicate IsReadable(mode: Mode, nodeUser: int, nodeGroup: int, user: int, group: int)
  {
    Allows(Read, mode, nodeUser, nodeGroup, user, group)
  }

  predicate IsDirSearchable(mode: Mode, nodeUser: int, nodeGroup: int, user: int, group: int)
  {
    Allows(Search, mode, nodeUser, nodeGroup, user, group)
  }

  predicate IsWriteable(mode: Mode, nodeUser: int, nodeGroup: int, user: int, group: int)
  {
    Allows(Write, mode, nodeUser, nodeGroup, user, group)
  }

  /** Executable is the very same test as searchable. */
  predicate IsExecutable(mode: Mode, nodeUser: int, nodeGroup: int, user: int, group: int)
  {
    IsDirSearchable(mode, nodeUser, nodeGroup, user, group)
  }

  /** The bits each test reads are the rwx bits of POSIX, other/group/owner in octal 0007/0070/0700. */
  lemma PermissionBits(a: Access)
    ensures GroupBit(a) == OtherBit(a) << 3 && OwnerBit(a) == OtherBit(a) << 6
    ensures OtherBit(a) & 0x7 == OtherBit(a) && OtherBit(a) != 0
  {
  }

  /** uid 0 passes every test, whatever the mode, owner and group. */
  lemma RootPassesAll(mode: Mode, nodeUser: int, nodeGroup: int, group: int)
    ensures IsReadable(mode, nodeUser, nodeGroup, ROOT_USER_ID, group)
    ensures IsDirSearchable(mode, nodeUser, nodeGroup, ROOT_USER_ID, group)
    ensures IsWriteable(mode, nodeUser, nodeGroup, ROOT_USER_ID, group)
    ensures IsExecutable(mode, nodeUser, nodeGroup, ROOT_USER_ID, group)
  {
  }

  /** The other bit alone grants access to every caller. */
  lemma OtherBitGrants(a: Access, mode: Mode, nodeUser: int, nodeGroup: int, user: int, group: int)
    requires mode & OtherBit(a) != 0
    ensures Allows(a, mode, nodeUser, nodeGroup, user, group)
  {
  }

  /**
   * For a caller not helped by root, the other bit or the owner clause, the
   * group bit grants access exactly when the entry's group is the caller's.
   */
  lemma GroupBitNeedsGroup(a: Access, mode: Mode, nodeUser: int, nodeGroup: int, user: int, group: int)
    requires user != ROOT_USER_ID && mode & OtherBit(a) == 0
    requires !(nodeUser == user && mode & OwnerBit(a) != 0)
    ensures Allows(a, mode, nodeUser, nodeGroup, user, group) <==> (nodeGroup == group && mode & GroupBit(a) != 0)
  {
  }

  /**
   * For a caller not helped by root, the other bit or the group clause, the
   * owner bit grants access exactly when the entry's owner is the caller.
   */
  lemma OwnerBitNeedsOwner(a: Access, mode: Mode, nodeUser: int, nodeGroup: int, user: int, group: int)
    requires user != ROOT_USER_ID && mode & OtherBit(a) == 0
    requires !(nodeGroup == group && mode & GroupBit(a) != 0)
    ensures Allows(a, mode, nodeUser, nodeGroup, user, group) <==> (nodeUser == user && mode & OwnerBit(a) != 0)
  {
  }

  /** A non-root caller matching none of the three clauses is denied. */
  lemma DeniedOtherwise(a: Access, mode: Mode, nodeUser: int, nodeGroup: int, user: int, group: int)
    requires user != ROOT_USER_ID && mode & OtherBit(a) == 0
    requires nodeGroup != group || mode & GroupBit(a) == 0
    requires nodeUser != user || mode & OwnerBit(a) == 0
    ensures !Allows(a, mode, nodeUser, nodeGroup, user, group)
  {
  }

  /** Mode 0 denies everyone but root. */
  lemma ModeZeroDenies(a: Access, nodeUser: int, nodeGroup: int, user: int, group: int)
    ensures Allows(a, 0, nodeUser, nodeGroup, user, group) <==> user == ROOT_USER_ID
  {
  }

  /** FSKIT_ENTRY_IS_EXECUTABLE is the searchable test itself, for every caller and entry. */
  lemma ExecutableIsSearchable(mode: Mode, nodeUser: int, nodeGroup: int, user: int, group: int)
    ensures IsExecutable(mode, nodeUser, nodeGroup, user, group) <==> IsDirSearchable(mode, nodeUser, nodeGroup, user, group)
  {
  }
}
