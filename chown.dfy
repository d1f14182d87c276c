// fskit_chown and the owner/group setters (libfskit/chown.c).
module Chown {
  import opened Opt
  import opened Errno
  import opened Defs
  import opened Entry
  import opened Resolve

  /** fskit_entry_set_owner_and_group: both fields change, nothing else; always 0. */
  function SetOwnerAndGroup(n: Node, newUser: int, newGroup: int): (res: (int, Node))
    ensures res.0 == 0 && res.1.owner == newUser && res.1.group == newGroup
    ensures res.1.(owner := n.owner, group := n.group) == n
  {
    (0, n.(owner := newUser, group := newGroup))
  }

  /** fskit_entry_set_owner: the owner changes, nothing else; always 0. */
  function SetOwner(n: Node, newUser: int): (res: (int, Node))
    ensures res.0 == 0 && res.1.owner == newUser && res.1.(owner := n.owner) == n
  {
    (0, n.(owner := newUser))
  }

  /** fskit_entry_set_group: the group changes, nothing else; always 0. */
  function SetGroup(n: Node, newGroup: int): (res: (int, Node))
    ensures res.0 == 0 && res.1.group == newGroup && res.1.(group := n.group) == n
  {
    (0, n.(group := newGroup))
  }

  /** Setting the owner and then the group is setting both at once. */
  lemma SettersCompose(n: Node, newUser: int, newGroup: int)
    ensures SetGroup(SetOwner(n, newUser).1, newGroup).1 == SetOwnerAndGroup(n, newUser, newGroup).1
  {
  }

  /**
   * fskit_chown: resolve (a missing entry with no error would be
   * -ENOMEM), then -EPERM unless the caller owns the entry; otherwise the
   * owner and group are set. The new group is not checked against the
   * caller's groups.
   */
  function ChownSpec(s: Store, path: string, user: int, group: int, newUser: int, newGroup: int): (res: (int, Store))
    requires WellFormed(s)
    ensures WellFormed(res.1) && res.1.Keys == s.Keys
    ensures res.0 != 0 ==> res.1 == s
  {
    var o := ResolveSpec(s, path, user, group, false);
    ResolveOutcome(s, path, user, group, false);
    if o.ent.None? || o.err != 0 then (if o.err == 0 then -ENOMEM else o.err, s)
    else
      var r := o.ent.value;
      if s[r].owner != user then (-EPERM, s)
      else
        var (_, n) := SetOwnerAndGroup(s[r], newUser, newGroup);
        assert NodeOk(s.Keys, s[r]);
        UpdateWellFormed(s, r, n);
        (0, s[r := n])
  }

  /**
   * What fskit_chown returns: the resolution's error, else -EPERM for a
   * caller who is not the owner, else 0 with the owner and group set on
   * that entry alone, whatever the new group is. The -ENOMEM case cannot
   * arise.
   */
  lemma ChownOutcome(s: Store, path: string, user: int, group: int, newUser: int, newGroup: int)
    requires WellFormed(s)
    ensures var o := ResolveSpec(s, path, user, group, false);
      var (rc, s') := ChownSpec(s, path, user, group, newUser, newGroup);
      && rc != -ENOMEM
      && (o.err != 0 ==> rc == o.err && s' == s)
      && (o.err == 0 ==> o.ent.Some? && o.ent.value in s)
      && (o.err == 0 && s[o.ent.value].owner != user ==> rc == -EPERM && s' == s)
      && (o.err == 0 && s[o.ent.value].owner == user ==>
            rc == 0 && s' == s[o.ent.value := s[o.ent.value].(owner := newUser, group := newGroup)])
  {
    ResolveOutcome(s, path, user, group, false);
  }

  /** Only the owner changes ownership: success means the caller owned the entry, which now has the new ids. */
  lemma ChownOnlyOwner(s: Store, path: string, user: int, group: int, newUser: int, newGroup: int)
    requires WellFormed(s) && ChownSpec(s, path, user, group, newUser, newGroup).0 == 0
    ensures var r := ResolveSpec(s, path, user, group, false).ent;
      var s' := ChownSpec(s, path, user, group, newUser, newGroup).1;
      r.Some? && r.value in s && s[r.value].owner == user
      && s'[r.value].owner == newUser && s'[r.value].group == newGroup
  {
    ResolveOutcome(s, path, user, group, false);
  }

  /** An owner may give the entry to any group, one that is not the caller's own included. */
  lemma ChownAnyGroup(s: Store, path: string, user: int, group: int, newUser: int, newGroup: int)
    requires WellFormed(s) && ResolveSpec(s, path, user, group, false).err == 0
    requires var r := ResolveSpec(s, path, user, group, false).ent;
      r.Some? && r.value in s && s[r.value].owner == user
    ensures ChownSpec(s, path, user, group, newUser, newGroup).0 == 0
  {
  }

  /** fskit_chown on the core. */
  method Chown(core: Core, path: string, user: int, group: int, newUser: int, newGroup: int) returns (rc: int)
    requires core.Valid()
    modifies core
    ensures core.Valid()
    ensures (rc, core.ents) == ChownSpec(old(core.ents), path, user, group, newUser, newGroup)
  {
    var o := ResolvePath(core, path, user, group, false);
    ResolveOutcome(core.ents, path, user, group, false);
    if o.ent.None? || o.err != 0 {
      rc := o.err;
      if rc == 0 {
        rc := -ENOMEM;
      }
      return rc;
    }
    var r := o.ent.value;
    if core.ents[r].owner != user {
      return -EPERM;
    }
    var n := core.ents[r];
    var res := SetOwnerAndGroup(n, newUser, newGroup);
    assert NodeOk(core.ents.Keys, n);
    UpdateWellFormed(core.ents, r, res.1);
    core.ents := core.ents[r := res.1];
    rc := o.err;
  }
}
