// fskit_chmod and fskit_entry_set_mode (libfskit/chmod.c).
module Chmod {
  import opened Opt
  import opened Errno
  import opened Defs
  import opened Entry
  import opened Resolve

  /** fskit_entry_set_mode: the mode becomes exactly the given bits; nothing else changes; always 0. */
  function SetMode(n: Node, mode: Mode): (res: (int, Node))
    ensures res.0 == 0 && res.1.mode == mode && res.1.(mode := n.mode) == n
  {
    (0, n.(mode := mode))
  }

  /**
   * fskit_chmod: resolve (a missing entry with no error would be
   * -ENOMEM), then -EPERM unless the caller owns the entry, with no
   * exception for uid 0; otherwise the entry's mode is set.
   */
  function ChmodSpec(s: Store, path: string, user: int, group: int, mode: Mode): (res: (int, Store))
    requires WellFormed(s)
    ensures WellFormed(res.1) && res.1.Keys == s.Keys
    ensures res.0 != 0 ==> res.1 == s
  {
    var o := ResolveSpec(s, path, user, group, false);
    ResolveOutcome(s, path, user, group, false);
    if o.ent.None? || o.err != 0 then (if o.err == 0 then -ENOMEM else o.err, s)
    else
      var r := o.ent.value;
      if s[r].owner != user then (-EPERM, s)
      else
        var (_, n) := SetMode(s[r], mode);
        assert NodeOk(s.Keys, s[r]);
        UpdateWellFormed(s, r, n);
        (0, s[r := n])
  }

  /**
   * What fskit_chmod returns: the resolution's error, else -EPERM for a
   * caller who is not the owner, else 0 with the mode set on that entry
   * alone. The -ENOMEM case cannot arise.
   */
  lemma ChmodOutcome(s: Store, path: string, user: int, group: int, mode: Mode)
    requires WellFormed(s)
    ensures var o := ResolveSpec(s, path, user, group, false);
      var (rc, s') := ChmodSpec(s, path, user, group, mode);
      && rc != -ENOMEM
      && (o.err != 0 ==> rc == o.err && s' == s)
      && (o.err == 0 ==> o.ent.Some? && o.ent.value in s)
      && (o.err == 0 && s[o.ent.value].owner != user ==> rc == -EPERM && s' == s)
      && (o.err == 0 && s[o.ent.value].owner == user ==>
            rc == 0 && s' == s[o.ent.value := s[o.ent.value].(mode := mode)])
  {
    ResolveOutcome(s, path, user, group, false);
  }

  /** Only the owner changes the mode: success means the caller owns the entry. */
  lemma ChmodOnlyOwner(s: Store, path: string, user: int, group: int, mode: Mode)
    requires WellFormed(s) && ChmodSpec(s, path, user, group, mode).0 == 0
    ensures var r := ResolveSpec(s, path, user, group, false).ent;
      r.Some? && r.value in s && s[r.value].owner == user
      && ChmodSpec(s, path, user, group, mode).1[r.value].mode == mode
  {
    ResolveOutcome(s, path, user, group, false);
  }

  /** uid 0 has no exemption: root changing the mode of an entry it does not own gets -EPERM. */
  lemma ChmodRootNotExempt(s: Store, path: string, group: int, mode: Mode)
    requires WellFormed(s) && ResolveSpec(s, path, ROOT_USER_ID, group, false).err == 0
    requires var r := ResolveSpec(s, path, ROOT_USER_ID, group, false).ent;
      r.Some? && r.value in s && s[r.value].owner != ROOT_USER_ID
    ensures ChmodSpec(s, path, ROOT_USER_ID, group, mode) == (-EPERM, s)
  {
  }

  /** fskit_chmod on the core. */
  method Chmod(core: Core, path: string, user: int, group: int, mode: Mode) returns (rc: int)
    requires core.Valid()
    modifies core
    ensures core.Valid()
    ensures (rc, core.ents) == ChmodSpec(old(core.ents), path, user, group, mode)
  {
    var o := ResolvePath(core, path, user, group, false);
    ResolveOutcome(core.ents, path, user, group, false);
    if o.ent.None? || o.err != 0 {
      rc := o.err;
      if rc == 0 {
        rc := -ENOMEM;
      }
      return rc;
    }
    var r := o.ent.value;
    if core.ents[r].owner != user {
      return -EPERM;
    }
    var n := core.ents[r];
    var res := SetMode(n, mode);
    assert NodeOk(core.ents.Keys, n);
    UpdateWellFormed(core.ents, r, res.1);
    core.ents := core.ents[r := res.1];
    rc := o.err;
  }
}
