# fskit core in Dafny

fskit is a C library for building filesystems in user space. It keeps an
in-memory tree of entries: files, directories, symlinks and device nodes.
Each directory owns a child set ordered by `strcmp`, and that set always
holds "." and "..". Every entry counts its links and its opens. An entry
is destroyed only when both counts are gone. Each filesystem operation
resolves a path from the root, makes a fixed sequence of checks, then
changes the tree. Where the application has installed a "route" for the
operation, its callback is called on the way. fskit also has a small
command interpreter (the REPL) that drives the library from text lines.

This project models that core sequentially, with the locks erased:

- **Entry tree.** `Entry.Core` holds the store, a map from references to
  entry values. Its methods (attach, detach, destroy, tag as garbage,
  xattr edits) restate `libfskit/entry.c`. Each method is proved equal to
  a function of the old store, and the lemmas about those functions state
  what the C promises.
- **Sets.** Child sets and xattr sets are strictly sorted association
  sequences (`Assoc`, `EntrySet`, `Xattr`). `Detach` holds the FIFO walk
  of `fskit_detach_all_ex`.
- **Permissions.** The permission macros of `include/fskit/entry.h` are
  in `Defs`.
- **Paths.** The string helpers and the array-in-place `fskit_path_split`
  are in `PathStr`. The root-to-leaf walk with its search-permission
  checks, and entry ref/unref, are in `Resolve`.
- **Operations.** `Rename`, `Unlink`, `Rmdir`, `Trunc`, `Chmod`, `Chown`,
  `Stat` and `Read` follow the C step by step. Each method is proved
  equal to a specification function whose outcomes are stated as lemmas.
- **Link invariant.** `Links` proves that every store-changing
  operation keeps each entry's link count at least the number of names
  bound to it. `fskit_detach_all_ex` relies on this when it lowers
  counts without a check.
- **Listings.** `Readdir` covers directory reading with its resumable
  cursor, the route's omissions and the compaction of the record array.
  `Listxattr` covers the NUL-separated xattr name list, its length query
  and its -ERANGE test.
- **Tables and parsers.** `Route` is the route table's slot allocator,
  the matching scan and declaration. `Slots` is the lowest-free-slot rule
  that the route table and the REPL share. `Repl` covers the REPL's
  tokenizer, the uint64, mode and user/group parsers, the descriptor
  tables, the per-command argument counts and the close command.

Some pieces are parameters, not code:

- **Route callbacks.** A callback is a value of `Route.Dispatch`: no
  route matched, or a callback ran and returned a status. This is the
  status that `fskit_route_call` hands to the `fskit_run_user_*`
  wrappers. `Route.RunUser` is the shared tail of `fskit_run_user_detach`,
  `_destroy`, `_rename`, `_trunc`, `_read` and `_stat` (and of
  `fskit_do_user_stat`).
- **Regular expressions.** Whether a route's regex compiles, and which
  routes match a path, are given as inputs.
- **Clock.** The time `now` is a parameter.

Where the source departs from its own comments or from evident intent,
the model states the code as written and the intended behaviour side by
side; see "## Findings". Several other oddities are faithful features of
the code, and lemmas state them:

- Three emptiness tests disagree. `Rmdir.RmdirRefusesWhatUnlinkRemoves`
  and `Unlink.UnlinkCrowded` show it, and `Rename.Vet` carries rename's
  own `num_children > 0` test.
- `Trunc.TruncDropsRouteStatus`: `fskit_trunc` reports a successful
  destroy attempt, not the route's status.
- `PathStr.Dirname`: the trailing-slash branch of `fskit_dirname` is dead
  code.
- `Stat.StatNameLimitStricter`: `fskit_stat` treats a basename of exactly
  NAMEMAX characters as too long.
- `Listxattr.NosysIsAnError`: a route without a listxattr callback
  returns -ENOSYS as an error, with no fall back to the built-in listing.
  `Route.RunUser` shows the same for every other run_user wrapper: their
  test for -ENOSYS from `fskit_route_call` (trunc.c:62, for one) is dead,
  since the -ENOSYS of a missing callback arrives in the callback status.

## Model

| member | source | states |
|---|---|---|
| Assoc.InsertSorted | libfskit/entry.c:147-171 | The insertion keeps the sequence strictly sorted. |
| Assoc.RemoveSorted | libfskit/entry.c:205-233 | The removal keeps the sequence strictly sorted. |
| Assoc.FindInsert | libfskit/entry.c:147-171 | After Insert(a, k, v), k maps to v and every other key keeps its value. |
| Assoc.FindRemove | libfskit/entry.c:205-233 | After Remove(a, k), k is absent and every other key keeps its value. |
| Assoc.InsertLength | libfskit/entry.c:147-171 | Insert grows the sequence by one exactly when k was absent. |
| Assoc.RemoveLength | libfskit/entry.c:205-233 | Remove shrinks the sequence by one exactly when k was present. |
| Assoc.RemoveAbsent | libfskit/entry.c:205-233 | Removing an absent key changes nothing. |
| Assoc.FindAt | libfskit/entry.c:190-200 | In a sorted sequence, the key at position i finds the value at position i. |
| Assoc.FindSome | libfskit/entry.c:190-200 | A found value sits at some position under its key. |
| Assoc.InsertMembers | libfskit/entry.c:147-171 | Every pair of Insert(a, k, v) is the new pair or was in a. |
| Assoc.RemoveMembers | libfskit/entry.c:205-233 | Every pair of Remove(a, k) was in a. |
| Chmod.SetMode | libfskit/chmod.c:31-35 | fskit_entry_set_mode: the mode becomes exactly the given bits; nothing else changes; always 0. |
| Chmod.ChmodSpec | libfskit/chmod.c:45-68 | fskit_chmod: resolve (a missing entry with no error would be -ENOMEM), then -EPERM unless the caller owns the entry, with no exception for uid 0; otherwise the entry's mode is set. |
| Chmod.ChmodOutcome | libfskit/chmod.c:45-68 | What fskit_chmod returns: the resolution's error, else -EPERM for a caller who is not the owner, else 0 with the mode set on that entry alone. The -ENOMEM case cannot arise. |
| Chmod.ChmodOnlyOwner | libfskit/chmod.c:45-68 | Only the owner changes the mode: success means the caller owns the entry. |
| Chmod.ChmodRootNotExempt | libfskit/chmod.c:45-68 | uid 0 has no exemption: root changing the mode of an entry it does not own gets -EPERM. |
| Chmod.Chmod | libfskit/chmod.c:45-68 | its status and the new store are exactly those `ChmodSpec` gives on the old store, and the core stays valid (every reference of every entry names an entry) |
| Chown.SetOwnerAndGroup | libfskit/chown.c:30-35 | fskit_entry_set_owner_and_group: both fields change, nothing else; always 0. |
| Chown.SetOwner | libfskit/chown.c:40-44 | fskit_entry_set_owner: the owner changes, nothing else; always 0. |
| Chown.SetGroup | libfskit/chown.c:49-53 | fskit_entry_set_group: the group changes, nothing else; always 0. |
| Chown.SettersCompose | libfskit/chown.c:30-53 | Setting the owner and then the group is setting both at once. |
| Chown.ChownSpec | libfskit/chown.c:65-88 | fskit_chown: resolve (a missing entry with no error would be -ENOMEM), then -EPERM unless the caller owns the entry; otherwise the owner and group are set. The new group is not checked against the caller's groups. |
| Chown.ChownOutcome | libfskit/chown.c:65-88 | What fskit_chown returns: the resolution's error, else -EPERM for a caller who is not the owner, else 0 with the owner and group set on that entry alone, whatever the new group is. The -ENOMEM case cannot arise. |
| Chown.ChownOnlyOwner | libfskit/chown.c:65-88 | Only the owner changes ownership: success means the caller owned the entry, which now has the new ids. |
| Chown.ChownAnyGroup | libfskit/chown.c:65-88 | An owner may give the entry to any group, one that is not the caller's own included. |
| Chown.Chown | libfskit/chown.c:65-88 | its status and the new store are exactly those `ChownSpec` gives on the old store, and the core stays valid (every reference of every entry names an entry) |
| Defs.PermissionBits | include/fskit/entry.h:48-51 | The bits each test reads are the rwx bits of POSIX, other/group/owner in octal 0007/0070/0700. |
| Defs.RootPassesAll | include/fskit/entry.h:48-51 | uid 0 passes every test, whatever the mode, owner and group. |
| Defs.OtherBitGrants | include/fskit/entry.h:48-51 | The other bit alone grants access to every caller. |
| Defs.GroupBitNeedsGroup | include/fskit/entry.h:48-51 | For a caller not helped by root, the other bit or the owner clause, the group bit grants access exactly when the entry's group is the caller's. |
| Defs.OwnerBitNeedsOwner | include/fskit/entry.h:48-51 | For a caller not helped by root, the other bit or the group clause, the owner bit grants access exactly when the entry's owner is the caller. |
| Defs.DeniedOtherwise | include/fskit/entry.h:48-51 | A non-root caller matching none of the three clauses is denied. |
| Defs.ModeZeroDenies | include/fskit/entry.h:48-51 | Mode 0 denies everyone but root. |
| Defs.ExecutableIsSearchable | include/fskit/entry.h:48-51 | FSKIT_ENTRY_IS_EXECUTABLE is the searchable test itself, for every caller and entry. |
| Detach.QueuedItemsFrom | libfskit/entry.c:543-596 | Every queued item is a non-dot, non-DEAD child of d under dirPath. |
| Detach.QueuedItemsComplete | libfskit/entry.c:543-596 | Conversely, every non-dot, non-DEAD child of d is queued. |
| Detach.OnlyDotsQueuesNothing | libfskit/entry.c:543-596 | Queuing the children of a set holding only "." and ".." queues nothing. |
| Detach.DetachCtx.constructor | libfskit/entry.c:721-725 | fskit_detach_ctx_init: an empty context. |
| Detach.DetachCtx.SetFlags | libfskit/entry.c:728-733 | fskit_detach_ctx_set_flags: install new flags, hand back the old ones. |
| Detach.DetachCtx.Cbrc | libfskit/entry.c:736-738 | fskit_detach_ctx_get_cbrc: the route status the context last recorded |
| Detach.DetachCtx.Free | libfskit/entry.c:741-759 | fskit_detach_ctx_free: drop every queued entry. |
| Detach.DetachCtx.QueueChild | libfskit/entry.c:500-535 | fskit_detach_queue_child: append one entry at the tail of the FIFO. |
| Detach.DetachCtx.QueueChildren | libfskit/entry.c:587-593 | fskit_detach_queue_children: queue a directory's old children in set order. Its second loop (entry.c:587-593) is left out: it removes the dirname of each queued path from the set, and a dirname holds a '/' that no child name does, so nothing is removed; the caller then frees the set (entry.c:662). |
| Detach.QueuedBound | libfskit/entry.c:543-596 | the items fskit_detach_queue_children appends name an entry at most as often as the handed-back set binds it |
| Detach.RootCovered | libfskit/entry.c:424-453 | fskit_core_init leaves the root alone, linked once and binding only "." and "..", so a fresh core satisfies LinksCover |
| Detach.HeadLinked | libfskit/entry.c:664-672 | the entry at the head of a covered queue (LinksCover) has a link count of at least 1, so the unconditional decrement of fskit_detach_all_ex never goes below 0 and the negative-count abort of fskit_entry_try_destroy is out of reach |
| Detach.TagClaims | libfskit/entry.c:1562-1595 | Tagging an entry as garbage moves the names its old set binds out of the store and into the set it hands back; no link count changes. |
| Detach.DropLinkClaims | libfskit/entry.c:664-680 | The common half of a turn takes one link and one queued item of the entry, and binds no name anew. |
| Detach.StepCover | libfskit/entry.c:611-712 | a turn that returns 0 keeps the queue covered: every entry's link count is at least its queued items plus the names its parents' child sets bind to it |
| Detach.InitialStillCovered | libfskit/entry.c:611-712 | After a turn that returned 0, every initially queued entry is still queued or drained. |
| Detach.SweepProgress | libfskit/entry.c:611-712 | A turn that returned 0 makes progress (fewer busy directories, or as many and a shorter queue) and keeps the loop's two coverage facts. |
| Detach.DetachNext | libfskit/entry.c:611-712 | one turn of the loop in place, as `StepSpec` gives it; a -EFAULT records the route status in the context |
| Detach.DropAndPop | libfskit/entry.c:611-712 | the rest of a turn in place, as `DropAndPopSpec` gives it; a -EFAULT records the route status in the context |
| Detach.TagAndQueue | libfskit/entry.c:611-712 | the directory half of a turn in place, as `TagAndQueueSpec` gives it |
| Detach.DropLink | libfskit/entry.c:611-712 | the link drop and destroy attempt of one turn, in place, as `DropLinkSpec` gives them |
| Detach.DetachAllEx | libfskit/entry.c:611-712 | fskit_detach_all_ex: queue the given children (when present), then take entries from the head of the FIFO until it is empty or a turn fails. On 0 the queue is empty and every entry that was queued, or queued in turn, is drained; drained entries stay drained on every outcome. The caller's link counts must cover the queue and the given children (LinksCoverWith); the loop keeps LinksCover, so every dequeued entry still has the link it drops. |
| Detach.DetachAll | libfskit/entry.c:763-811 | fskit_detach_all: resolve the directory as uid 0, gid 0, mark it as garbage, and unlink everything below it (a retry after -ENOMEM is not needed here). The resolver's and the tagger's errors are returned. |
| Entry.InitCommon | libfskit/entry.c:931-953 | fskit_entry_init_common: a fresh entry of the given type, all three times set to now, no links, no opens, no children, no xattrs. |
| Entry.InitDir | libfskit/entry.c:976-994 | fskit_entry_init_dir: a directory whose child set holds "." = self and ".." = parent. |
| Entry.RootNode | libfskit/entry.c:424-453 | fskit_core_init: the root directory, mode 0755, its own parent, linked once. |
| Entry.AttachCounts | libfskit/entry.c:309-329 | The counting half of attach: one more link to child unless it is parent, one more child of parent. |
| Entry.Reparent | libfskit/entry.c:238-257 | fskit_entry_set_replace of a directory child's ".." by its new parent; other entries keep their sets. |
| Entry.Bind | libfskit/entry.c:147-171 | fskit_entry_set_insert into parent's set; nothing else changes. |
| Entry.AttachStore | libfskit/entry.c:309-329 | fskit_entry_attach_lowlevel: count one more link to child (not when it is the parent itself) and one more child of parent, touch the parent's mtime, point a directory child's ".." at parent, and bind name to child. |
| Entry.AttachSpec | libfskit/entry.c:309-329 | What attach does, entry by entry: name finds child and the parent's other names are unchanged, the counts rise as stated, a directory child's ".." (when present) now names the parent, and every other entry is untouched. |
| Entry.UnbindStore | libfskit/entry.c:338-384 | The unlinking half of fskit_entry_detach_lowlevel(_ex), without its emptiness test: -ENOENT for an absent name, -ENOTEMPTY for "." (the parent itself), -ENOENT when the set refuses to remove the name (".." of a non-root directory). On success the parent loses one child and its mtime is touched, and the child loses one link, never going below 0. |
| Entry.UnbindFound | libfskit/entry.c:338-384 | The unbind of a name found in the parent, naming another entry. |
| Entry.DetachStore | libfskit/entry.c:338-394 | fskit_entry_detach_lowlevel(_ex): UnbindStore, refused with -ENOTEMPTY for a directory child with more than two children (a count that leaves out "." and ".."). The update_mtime flag is unused. |
| Entry.Destroy | libfskit/entry.c:1176-1215 | fskit_entry_destroy: a DEAD entry is left alone; any other becomes DEAD and loses its child set, symlink target and xattrs. |
| Entry.DestroyIdempotent | libfskit/entry.c:1176-1215 | Destroying twice is destroying once. |
| Entry.TryDestroyStore | libfskit/entry.c:1224-1279 | fskit_entry_try_destroy(_and_free_ex): an entry with no links and no opens is referenced once more, its destroy route runs (the route's status goes to the caller's cbrc) and it is destroyed: result 1. Otherwise nothing happens: result 0, cbrc untouched. Negative counts, which make the C exit, are excluded by WellFormed. |
| Entry.TagGarbageStore | libfskit/entry.c:1562-1595 | fskit_entry_tag_garbage. A directory hands back its child set and gets a fresh one holding only "." and its old "..", no counted children and the deletion flag; -EIO if it had no "..". Any other entry only gets the flag (and hands back no set). |
| Entry.GarbageCollectStep | libfskit/entry.c:1295-1353 | The shared head of fskit_entry_try_garbage_collect: -EEXIST for an entry not marked for deletion; otherwise detach the path's basename from the parent, where -ENOENT (already detached) counts as success and any error but -ENOTEMPTY becomes -EIO; on success try to destroy the child. Returns (status, destroyed, store). |
| Entry.TryGarbageCollectAsWritten | libfskit/entry.c:1295-1353 | fskit_entry_try_garbage_collect as written: after a destroy the basename is removed from the parent and its child count decremented once more, although the detach already did both. |
| Entry.RemoveAgain | libfskit/entry.c:1329-1334 | The tail of fskit_entry_try_garbage_collect as written: remove name from the parent's set and lower its child count, whether or not the name is still there. |
| Entry.TryGarbageCollect | libfskit/entry.c:1295-1353 | fskit_entry_try_garbage_collect as intended: the detach is the only place the parent's child count drops. -EEXIST for an entry not marked for deletion; 1 when the child was destroyed. |
| Entry.TryGarbageCollectKeepsCount | libfskit/entry.c:1295-1353 | Detach moves the parent's count and its set together, so the corrected garbage collection keeps the parent's Surplus whenever the child is another entry. |
| Entry.TryGarbageCollectDoubleDecrement | libfskit/entry.c:1295-1353 | When the path's basename names child, a non-directory that loses its last link and is not open, the as-written collection lowers the parent's child count by two while its set loses one name; the corrected one lowers it by one. |
| Entry.GcStepDestroys | libfskit/entry.c:1295-1353 | The shared head on such an entry: the detach succeeds and the destroy follows, leaving the parent with one name and one counted child fewer. |
| Entry.GcExampleGoesNegative | libfskit/entry.c:1295-1353 | Collecting "/f" from GcExample: as written the root's count of 1 ends at -1. |
| Entry.Core.constructor | libfskit/entry.c:424-453 | fskit_core_init: the store holds the root directory alone, as `RootNode` describes it |
| Entry.Core.Attach | libfskit/entry.c:309-329 | fskit_entry_attach_lowlevel in place: always 0, and the new store is `AttachStore`'s; its only failure in C is out-of-memory |
| Entry.Core.Detach | libfskit/entry.c:338-394 | fskit_entry_detach_lowlevel in place: status and new store are `DetachStore`'s; the core stays valid |
| Entry.Core.Unbind | libfskit/entry.c:338-384 | the unlinking half in place: status and new store are `UnbindStore`'s; the core stays valid |
| Entry.Core.TryDestroy | libfskit/entry.c:1224-1279 | fskit_entry_try_destroy_and_free_ex in place: whether it destroyed, the route status and the new store are `TryDestroyStore`'s |
| Entry.Core.TagGarbage | libfskit/entry.c:1562-1595 | fskit_entry_tag_garbage in place: status, the handed-back child set and the new store are `TagGarbageStore`'s |
| Entry.Core.RefEntry | libfskit/path.c:815-818 | fskit_entry_ref_entry: one more open; it always succeeds. |
| Entry.Core.SetXattr | libfskit/entry.c:1761-1827 | fskit_xattr_set_insert on the entry's own set: status and set are `Xattr.Insert`'s; no other entry or field changes |
| Entry.Core.RemoveXattr | libfskit/entry.c:1855-1877 | fskit_xattr_set_remove on the entry's own set: result and set are `Xattr.Remove`'s; no other entry or field changes |
| EntrySet.SetNew | libfskit/entry.c:116-142 | A new child set: "." bound to the directory itself, ".." to its parent. |
| EntrySet.Insert | libfskit/entry.c:147-171 | Bind name to child (the sglib add of fskit_entry_set_insert). |
| EntrySet.Remove | libfskit/entry.c:205-233 | fskit_entry_set_remove: "." and ".." are never removed (false, no change); otherwise the name is dropped and the result says whether it was present. |
| EntrySet.Replace | libfskit/entry.c:238-257 | fskit_entry_set_replace: rebind an existing name; false and no change when absent. |
| EntrySet.RemoveSpec | libfskit/entry.c:205-233 | Remove drops exactly the named binding and reports its presence. |
| EntrySet.RemoveFind | libfskit/entry.c:205-233 | Any removal leaves the other names alone and drops the named one unless it is "." or "..". |
| EntrySet.RemoveKeepsDots | libfskit/entry.c:205-233 | "." and ".." survive every removal. |
| EntrySet.ReplaceSpec | libfskit/entry.c:238-257 | Replace changes only the target of an existing name. |
| Links.BoundInsert | libfskit/entry.c:309-329 | binding a name in a child set changes the count of names bound to an entry exactly by the binding gained and the one the name had before |
| Links.BoundRemove | libfskit/entry.c:338-384 | removing a name from a child set lowers the count of names bound to an entry by exactly the binding the name had; dot names count for nothing |
| Links.DestroyCover | libfskit/entry.c:1224-1258 | fskit_entry_try_destroy keeps every entry's link count at least the number of names the child sets bind to it (`Covered`, the invariant fskit_detach_all_ex relies on) |
| Links.UnbindCover | libfskit/entry.c:338-384 | unbinding a name keeps every entry's link count at least the number of names the child sets bind to it (`Covered`, the invariant fskit_detach_all_ex relies on): the child loses that name and the link it was counted by |
| Links.DetachCover | libfskit/entry.c:338-394 | fskit_entry_detach_lowlevel keeps every entry's link count at least the number of names the child sets bind to it (`Covered`, the invariant fskit_detach_all_ex relies on) |
| Links.AttachCover | libfskit/entry.c:309-329 | attaching an entry into a different parent keeps every entry's link count at least the number of names the child sets bind to it (`Covered`, the invariant fskit_detach_all_ex relies on): the one name bound anew brings one more link, and the rewritten ".." is not counted |
| Links.SelfAttachBreaksCover | libfskit/entry.c:309-329 | attaching a directory to itself under a new name adds a bound name but no link (the count rises only when parent and child differ), so a directory whose links were all accounted for is no longer covered |
| Links.TagGarbageCover | libfskit/entry.c:1562-1595 | fskit_entry_tag_garbage keeps every entry's link count at least the number of names the child sets bind to it (`Covered`, the invariant fskit_detach_all_ex relies on): a directory's set shrinks to "." and "..", and no count changes |
| Links.XattrCover | libfskit/entry.c:1761-1877 | an xattr insert or removal keeps every entry's link count at least the number of names the child sets bind to it (`Covered`, the invariant fskit_detach_all_ex relies on) |
| Links.GarbageCollectCover | libfskit/entry.c:1295-1353 | fskit_entry_try_garbage_collect as intended, and its shared detach-and-destroy head, keep every entry's link count at least the number of names the child sets bind to it (`Covered`, the invariant fskit_detach_all_ex relies on) |
| Links.RemoveAgainCover | libfskit/entry.c:1329-1334 | the as-written second removal of the basename keeps every entry's link count at least the number of names the child sets bind to it (`Covered`, the invariant fskit_detach_all_ex relies on) |
| Links.GarbageCollectAsWrittenCover | libfskit/entry.c:1295-1353 | fskit_entry_try_garbage_collect as written keeps every entry's link count at least the number of names the child sets bind to it (`Covered`, the invariant fskit_detach_all_ex relies on), its second removal of the basename included |
| Links.UnlinkCover | libfskit/unlink.c:32-136 | every outcome of fskit_unlink keeps every entry's link count at least the number of names the child sets bind to it (`Covered`, the invariant fskit_detach_all_ex relies on) |
| Links.RmdirSanitizedCover | libfskit/rmdir.c:37-155 | every outcome of fskit_rmdir past its length tests keeps every entry's link count at least the number of names the child sets bind to it (`Covered`, the invariant fskit_detach_all_ex relies on) |
| Links.RmdirCover | libfskit/rmdir.c:37-155 | every outcome of fskit_rmdir keeps every entry's link count at least the number of names the child sets bind to it (`Covered`, the invariant fskit_detach_all_ex relies on) |
| Links.TruncCover | libfskit/trunc.c:106-156 | every outcome of fskit_trunc, the destroy of an unlinked entry after the truncate included, keeps every entry's link count at least the number of names the child sets bind to it (`Covered`, the invariant fskit_detach_all_ex relies on) |
| Links.FTruncCover | libfskit/trunc.c:84-100 | every outcome of fskit_ftrunc keeps every entry's link count at least the number of names the child sets bind to it (`Covered`, the invariant fskit_detach_all_ex relies on) |
| Links.ChmodCover | libfskit/chmod.c:45-68 | every outcome of fskit_chmod keeps every entry's link count at least the number of names the child sets bind to it (`Covered`, the invariant fskit_detach_all_ex relies on) |
| Links.ChownCover | libfskit/chown.c:65-88 | every outcome of fskit_chown keeps every entry's link count at least the number of names the child sets bind to it (`Covered`, the invariant fskit_detach_all_ex relies on) |
| Links.RefCover | libfskit/path.c:797-811 | fskit_entry_ref keeps every entry's link count at least the number of names the child sets bind to it (`Covered`, the invariant fskit_detach_all_ex relies on) |
| Links.UnrefCover | libfskit/path.c:825-863 | fskit_entry_unref, the destroy of the last reference to an unlinked entry included, keeps every entry's link count at least the number of names the child sets bind to it (`Covered`, the invariant fskit_detach_all_ex relies on) |
| Links.RetireCover | libfskit/rename.c:486-509 | the retirement of the replaced entry at the end of the rename commit keeps every entry's link count at least the number of names the child sets bind to it (`Covered`, the invariant fskit_detach_all_ex relies on) |
| Links.ClearCover | libfskit/rename.c:452-481 | the unlinking half of the rename commit keeps every entry's link count at least the number of names the child sets bind to it (`Covered`, the invariant fskit_detach_all_ex relies on) under either reading |
| Links.InstallCover | libfskit/rename.c:467-509 | the linking half of the rename commit keeps every entry's link count at least the number of names the child sets bind to it (`Covered`, the invariant fskit_detach_all_ex relies on) when the destination directory is not the moved entry itself |
| Links.IntendedIntoItselfCommon | libfskit/rename.c:386-393 | Under the intended loop test an entry is moved into itself only within a common parent, by an old basename that the parent binds to itself (as "." does): a separately resolved new parent that is the moved entry is refused. |
| Links.RenameCover | libfskit/rename.c:225-522 | every outcome of fskit_rename under either reading keeps every entry's link count at least the number of names the child sets bind to it (`Covered`, the invariant fskit_detach_all_ex relies on), the as-written crowded directory included (its old name stays and so does the link it is counted by), unless the rename moves an entry into itself (`IntoItself`, which the loop test at rename.c:386-393 lets through because it runs only when the destination name exists) |
| Listxattr.Names | libfskit/listxattr.c:96-112 | The names of the set, in set order. |
| Listxattr.PackedLength | libfskit/listxattr.c:73-112 | The length query answers exactly the size of the list the copy writes. |
| Listxattr.TotalLenBounds | libfskit/listxattr.c:73-91 | Every name takes at least one byte, so the total is 0 exactly when the set is empty. |
| Listxattr.PackedAppend | libfskit/listxattr.c:96-112 | Listing a set that is split in two lists the first part, then the second. |
| Listxattr.NamesAt | libfskit/listxattr.c:96-112 | The i-th name listed is the name of the i-th member. |
| Listxattr.NamesAscend | libfskit/listxattr.c:96-112 | The names come out in ascending strcmp order, since that is the set's order. |
| Listxattr.PackedSplits | libfskit/listxattr.c:96-112 | Splitting the list at its NULs gives back the names, in order: the list is decodable. |
| Listxattr.ListxattrLen | libfskit/listxattr.c:73-91 | the sum over the names of their length plus one, which is the length of the packed list |
| Listxattr.PutName | libfskit/listxattr.c:96-112 | The memcpy of one name and the NUL after it, at offset. |
| Listxattr.CopyNames | libfskit/listxattr.c:96-112 | fskit_listxattr_copy_names: the names are written back to back from the start of list, each ended by a NUL; nothing after them is touched. The caller guarantees the room. |
| Listxattr.XattrFlistxattr | libfskit/listxattr.c:119-138 | fskit_xattr_flistxattr, the built-in listing: a NULL list or a size of 0 asks for the length only; a list too short for every name is -ERANGE; otherwise the names are copied and the length is returned. Only the copy writes. |
| Listxattr.RunUserListxattr | libfskit/listxattr.c:31-49 | fskit_run_user_listxattr: only -EPERM from route_call means "no route" and asks for the built-in listing; a route's callback status is returned as it is, -ENOSYS (a route with no listxattr callback) included. |
| Listxattr.Flistxattr | libfskit/listxattr.c:148-169 | fskit_flistxattr: the route answers first. A positive status is the route's own listing size, a negative one an error, and 0 falls back to the built-in listing, whose status and writes are XattrFlistxattr's: the packed names on success, the buffer untouched on -ERANGE and on a length query, and nothing past the names touched in any case. What a route writes into list is the route's affair and is not modelled. |
| Listxattr.FlistxattrRc | libfskit/listxattr.c:148-169 | The status fskit_flistxattr returns, as a function of the route's answer, the set, whether a buffer was given, and its size. |
| Listxattr.NosysIsAnError | libfskit/listxattr.c:31-49 | A route with no listxattr callback does not fall back to the built-in listing: the -ENOSYS of fskit_route_dispatch (route.c:498) comes back as an error. The other run_user wrappers return it too, since it arrives in cbrc; only a missing route (-EPERM) means "no route". |
| Listxattr.QueryThenList | libfskit/listxattr.c:119-138 | With no route, asking for the length and then listing into a buffer of exactly that length succeeds, and the buffer decodes to the names. |
| Listxattr.Listxattr | libfskit/listxattr.c:52-69 | fskit_listxattr: resolve the path; its error comes back as it is and the buffer is untouched, otherwise the entry's names are listed as fskit_flistxattr lists them, buffer contents included. |
| PathStr.FullPathSeam | libfskit/path.c:51-82 | Joined paths meet at exactly one '/'; an empty root leaves the path as it is. |
| PathStr.Dirname | libfskit/path.c:87-120 | fskit_dirname, scanning back from the terminator for the last '/'. The C first tests path[strlen(path)] for '/' (path.c:98-101); that character is the terminator, so the test never fires, and the model starts its scan at the last character instead. |
| PathStr.DirnameOfRoot | libfskit/path.c:87-120 | The directory part of "/" and "" is "/", and so is that of a one-component absolute path. |
| PathStr.DirnameOfPrefix | libfskit/path.c:87-120 | Otherwise the directory part is the prefix before the last '/': path is that prefix, one '/', and a '/'-free tail. |
| PathStr.BasenameLenOf | libfskit/path.c:123-146 | The length fskit_basename_len computes. |
| PathStr.BasenameLen | libfskit/path.c:123-146 | fskit_basename_len, scanning back for the '/' before the last component. |
| PathStr.Basename | libfskit/path.c:152-165 | fskit_basename: the last BasenameLenOf(path) characters of path. |
| PathStr.BasenameOfComponent | libfskit/path.c:123-165 | The basename of "/" is "/"; that of dir + "/" + name is name, for a '/'-free name. |
| PathStr.Depth | libfskit/path.c:173-193 | the depth `DepthOf` defines, whose meaning `DepthProperties` states |
| PathStr.DepthProperties | libfskit/path.c:173-193 | fskit_depth("/") is 0, one trailing '/' does not change the depth, and otherwise the depth is the number of '/'s. |
| PathStr.DepthAppend | libfskit/path.c:173-193 | Depth of a component appended to a '/'-free-ending directory path goes up by one. |
| PathStr.ScanName | libfskit/path.c:200-256 | The inner loop of both passes: advance from i to the next '/' or the end. |
| PathStr.CountNames | libfskit/path.c:200-256 | the number of maximal runs of non-'/' characters of the path |
| PathStr.NullSlash | libfskit/path.c:200-256 | the one '/' given becomes NUL, nothing else changes |
| PathStr.PathSplit | libfskit/path.c:200-256 | fskit_path_split: one pass counts the names, a second records each name and overwrites every '/' with NUL. The names are the maximal runs of non-'/' characters, in order. |
| PathStr.TakeName | libfskit/path.c:200-256 | The second pass's inner loop: the name starting at i runs to the next '/' (overwritten with NUL) or the end; the scan resumes after it. |
| PathStr.SanitizePath | libfskit/path.c:261-270 | fskit_sanitize_path: drop one trailing '/' from any path but "/". |
| Read.RequestOf | libfskit/read.c:52-67 | The request fskit_read hands to the read route for a handle. |
| Read.RunUserRead | libfskit/read.c:30-46 | fskit_run_user_read: no route means 0 bytes read; otherwise the route's own status (a byte count or a negative errno). |
| Read.ReadSpec | libfskit/read.c:52-67 | fskit_read: -EBADF for a handle opened write-only; otherwise the read route for this handle's request. |
| Read.ReadAccess | libfskit/read.c:52-67 | Which handles may read: read-only and read-write ones pass the test, write-only ones do not; and the answer for a readable handle depends on the request only. |
| Read.ReadNoRoute | libfskit/read.c:30-67 | With no read route, a readable handle reads 0 bytes. |
| Read.ReadSeesOnlyRequest | libfskit/read.c:52-67 | Handles that agree on path, entry and handle data read the same, whatever else they hold. |
| Readdir.Truncate | libfskit/readdir.c:44-58 | strncpy into a zeroed NAMEMAX+1 buffer: at most the first NAMEMAX characters. |
| Readdir.MakeDirEnt | libfskit/readdir.c:44-58 | fskit_make_dir_entry: the entry's type and file id under the (truncated) name. |
| Readdir.Scan | libfskit/readdir.c:164-285 | The records fskit_readdir_itr collects from member i of d onwards: hidden members are passed over, and the scan stops after limit records. |
| Readdir.Live | libfskit/readdir.c:164-285 | The complete listing from member i on: the record of every member readdir does not hide, in set order. |
| Readdir.ScanIsLive | libfskit/readdir.c:164-285 | The scan is the complete listing cut at the limit: at most limit records, the hidden members skipped and none of the others. |
| Readdir.IndexOf | libfskit/entry.c:176-185 | The position of name in d, as fskit_entry_set_find_itr locates it. |
| Readdir.FirstAbove | libfskit/readdir.c:114-158 | The position of the first member whose name is strcmp-greater than name. |
| Readdir.IndexOfSpec | libfskit/entry.c:176-185 | The position found is the first one holding name, and there is none exactly when no member holds it. |
| Readdir.FirstAboveSpec | libfskit/readdir.c:114-158 | The position found is the first one above name, and there is none exactly when no member is above it. |
| Readdir.FindStartSpec | libfskit/readdir.c:114-158 | fskit_readdir_find_start: the member named name, else the first member above it, else none. |
| Readdir.Resume | libfskit/readdir.c:319-390 | Where fskit_readdir_lowlevel starts a read that has begun, from the last name read. |
| Readdir.StartOf | libfskit/readdir.c:319-390 | The position a read from this cursor starts at, or none when there is nothing to read. |
| Readdir.Lowlevel | libfskit/readdir.c:319-390 | fskit_readdir_lowlevel: the records of one read and the cursor after it. A cursor at EOF reads nothing; a read that starts on a member but collects nothing sets EOF; a read that collects something leaves the cursor on its last name. |
| Readdir.RecordName | libfskit/readdir.c:44-58 | The name a record carries is its member's name, when the names are short. |
| Readdir.ReadsContinue | libfskit/readdir.c:319-390 | Two reads in a row on an unchanged directory, the second from the cursor the first left, return consecutive parts of one complete listing: together they are a prefix of it, so nothing is read twice and nothing visible is skipped; when the second read finds nothing, the first one had read everything that was left. |
| Readdir.ReadSome | libfskit/readdir.c:319-390 | A read that returned records started on a member, scanned from it, and left the cursor on its last name. |
| Readdir.LastRead | libfskit/readdir.c:319-390 | A scan that returned records is a prefix of the complete listing, its last record is that of some member j, and the listing after j is the rest of the complete one. |
| Readdir.ResumeAfterMember | libfskit/readdir.c:319-390 | A cursor left on a member's name resumes at the member after it. |
| Readdir.SecondRead | libfskit/readdir.c:319-390 | The read after one that ended on position j: the listing from j + 1 cut at the limit, and nothing only when that listing is empty. |
| Readdir.ResumeAtFirstAbove | libfskit/readdir.c:114-158 | With the intended resumption, a cursor whose name has left the set reads on from the first member strcmp-greater than that name; those are exactly the members from that position on, so none of them is skipped. With no such member the read is over. |
| Readdir.ResumeAsWrittenSkips | libfskit/readdir.c:114-158 | The code as written resumes one member later, after the first name above the vanished one. |
| Readdir.VanishedExampleSkipsB | libfskit/readdir.c:114-158 | Resuming from the vanished "a" as the code is written: only "c" comes back, "b" is skipped. |
| Readdir.VanishedExampleKeepsB | libfskit/readdir.c:114-158 | Resuming from the vanished "a" as intended: "b" and then "c". |
| Readdir.ListdirReadsAll | libfskit/readdir.c:528-603 | fskit_listdir: a fresh cursor asking for UINT64_MAX records gets the complete listing. |
| Readdir.Mask | libfskit/readdir.c:469-475 | The list with positions in omitted set to NULL, as fskit_readdir_omit leaves it. |
| Readdir.PresentMembers | libfskit/readdir.c:481-519 | Present keeps exactly the non-NULL records; taking them all means there was no NULL. |
| Readdir.PresentMaskNone | libfskit/readdir.c:528-596 | With nothing omitted the list given to the route comes back whole. |
| Readdir.PresentMaskMembers | libfskit/readdir.c:528-596 | The records left after omission are those at positions the route did not omit. |
| Readdir.ReaddirSpec | libfskit/readdir.c:528-596 | fskit_readdir: -EBADF for a handle without a directory; otherwise a low-level read. A read with records goes to the readdir route, and a status other than 0 from it (any "no route" answer is 0) throws the records away and is returned; otherwise the records the route did not omit are returned, compacted. The cursor moves either way. |
| Readdir.ReaddirRoute | libfskit/readdir.c:528-596 | What the route does to a read that found records: a failing route leaves no records and its status; no route leaves every record; a route returning 0 leaves exactly the records it did not omit. |
| Readdir.ReaddirItr | libfskit/readdir.c:164-285 | fskit_readdir_itr: fills a list of numChildren + 1 slots from member start of dent's set on; its contents and count are the scan's. |
| Readdir.ListdirLocked | libfskit/readdir.c:294-306 | fskit_listdir_locked: -EINVAL for a non-directory, else every visible child. |
| Readdir.Omit | libfskit/readdir.c:469-475 | fskit_readdir_omit: slot i becomes NULL and nothing else changes; always 0 |
| Readdir.Compactify | libfskit/readdir.c:481-519 | fskit_readdir_compactify_list: the non-NULL records of the first n slots, in order, as a NULL-terminated list; the list itself when it has no NULL among them, a new one otherwise. |
| Readdir.CountPresent | libfskit/readdir.c:481-519 | The first pass of fskit_readdir_compactify_list: n less one per NULL slot. |
| Readdir.CopyPresent | libfskit/readdir.c:481-519 | The second pass: the non-NULL slots, in order, into a fresh list of newSize + 1 slots. |
| Readdir.OmitAll | libfskit/readdir.c:469-475 | The readdir route's handling: NULL out what it omits, among the records read. |
| Readdir.DirHandle.ReadLowlevel | libfskit/readdir.c:319-390 | fskit_readdir_lowlevel on the handle: records and new cursor are `Lowlevel`'s (intended resumption); the handle's other fields stay |
| Readdir.DirHandle.Readdir | libfskit/readdir.c:528-596 | fskit_readdir on the handle: status, records and new cursor are `ReaddirSpec`'s; the handle's other fields stay |
| Readdir.DirHandle.Listdir | libfskit/readdir.c:601-603 | fskit_listdir: `ReaddirSpec` asking for UINT64_MAX records from the handle's cursor |
| Readdir.StartPosition | libfskit/readdir.c:319-390 | Where fskit_readdir_lowlevel starts: the first member for a cursor that has not read yet, otherwise the member after the one it last read, or the first member above a name that has left the set. |
| Readdir.FindStart | libfskit/readdir.c:114-158 | fskit_readdir_find_start: look the name up, else scan for the first greater name. |
| Rename.Contains | libfskit/rename.c:51-65 | fskit_inode_set_contains. As written (rename.c:51-65) the lookup key's file_id is never filled in, and the accumulator (rename.c:88-114) never stores an id in the members it adds, so every member has id 0 and the lookup succeeds for any non-empty set. Intended: membership. |
| Rename.ResolveParents | libfskit/rename.c:250-302 | The resolution phase of fskit_rename (rename.c:250-302): the deeper path's parent is resolved first; when the old path is deeper, the new parent is resolved only if the old one was found. Parents at the same depth with the same dirname are resolved once, as the common parent. The new parent is resolved with the file-id accumulator. |
| Rename.Vet | libfskit/rename.c:362-395 | The checks on the two entries (rename.c:362-395): a destination of the other type is -EISDIR (it is a directory) or -ENOTDIR; a directory destination with any counted child is -ENOTEMPTY, whatever the type test said; once these pass, a loop is -EINVAL. As written (rename.c:386-393), the loop test runs only when the destination exists and looks for the destination's id, through the set lookup of Contains. Intended: the moved entry's id is looked for as well, with or without a destination, so that no directory is moved into itself or below itself. |
| Rename.Retire | libfskit/rename.c:486-509 | The end of fskit_rename's commit (rename.c:486-509): the replaced entry is flagged as deleted through a rename and, if nothing references it any more, destroyed (running its destroy route, whose status is dropped); otherwise the flag is cleared again. |
| Rename.RetireDestroys | libfskit/rename.c:486-509 | Retire on an unreferenced entry destroys it, with the flag set and one more open. |
| Rename.RetireKeeps | libfskit/rename.c:486-509 | Retire on an entry still referenced changes nothing but the flag, which ends up cleared. |
| Rename.RetireFrame | libfskit/rename.c:486-509 | Retire changes no entry but the one retired. |
| Rename.DetachOld | libfskit/rename.c:452-481 | The old name's removal at commit. As written, rename.c:453 and 466 call fskit_entry_detach_lowlevel and ignore its status, so a directory with more than two children keeps its old name. Intended: the name is unbound whatever the directory holds. |
| Rename.Clear | libfskit/rename.c:452-481 | The unlinking half of the commit: the old name, then the destination's name if it exists. |
| Rename.Install | libfskit/rename.c:467-509 | The linking half of the commit: the entry under its new name, then the replaced entry's retirement. |
| Rename.Commit | libfskit/rename.c:452-509 | The commit (rename.c:445-509): unbind the old name, detach the destination's name if it exists (statuses ignored), attach the entry under the new name in the destination parent, and retire the replaced entry. |
| Rename.CommitFacts | libfskit/rename.c:452-509 | What the commit does to the two parents' names, when the moved and the replaced entries are distinct from both parents: the new name finds the moved entry, every other name but the old one is unchanged, and the old name is gone, except under the as-written reading for a crowded directory, whose old name survives the rename. |
| Rename.Locate | libfskit/rename.c:234-360 | The checks of fskit_rename before the entry tests (rename.c:234-360). A basename longer than NAMEMAX is -ENAMETOOLONG; resolution errors come next; a parent the caller may not search and write is -EACCES; a missing source is -ENOENT; renaming an entry onto itself is 0 with nothing left to do. Otherwise the two entries come back as a plan. |
| Rename.Prepare | libfskit/rename.c:234-395 | All the checks of fskit_rename up to the rename route (rename.c:234-395): those of Locate, then the entry tests of Vet. Once Locate has found the two entries the status is Vet's, and a plan comes back exactly when all of them pass and there is something to move. |
| Rename.RenameWith | libfskit/rename.c:225-522 | fskit_rename as a function of the store, under a reading: the checks of Prepare, then the rename route, whose failure is returned; only a call that reaches the commit changes the store, and it returns 0. |
| Rename.RenameMovesEntry | libfskit/rename.c:225-522 | A rename that passes its checks and its route moves the entry: the new name in the new parent finds the moved entry, the old name in the old parent finds nothing, and the two parents' other names are as they were. |
| Rename.RenameCommits | libfskit/rename.c:396-509 | A rename whose checks give a plan and whose route succeeds commits that plan. |
| Rename.AsWrittenChecksStricter | libfskit/rename.c:51-65 | Apart from the moved entry's own id, the as-written loop test only narrows the intended one: a rename that passes its checks as written, and does not move an entry onto its own new path, passes them with the same plan under the intended reading. |
| Rename.VetStricter | libfskit/rename.c:51-65 | A destination the as-written checks accept, the intended checks accept too, unless the moved entry's id is on the new parent's path. |
| Rename.SameEntryNoop | libfskit/rename.c:342-360 | Renaming an entry onto itself (rename.c:343-360) succeeds and changes nothing: the route is not run and nothing is committed. |
| Rename.BelowItselfRefused | libfskit/rename.c:386-393 | The intended loop test refuses to move an entry below itself: when a separately resolved new parent is reached through the moved entry (some prefix of the new parent's path looks up to it, the whole path included), the rename fails and changes nothing, with -EINVAL when the destination is absent or passes the type tests. |
| Rename.BelowItselfCommitsAsWritten | libfskit/rename.c:386-393 | As written the loop test runs only when the destination name exists (rename.c:386), so a rename onto a free name that moves an entry onto its own new path passes every check and is committed once the route agrees; the intended test refuses it with -EINVAL and changes nothing. |
| Rename.LoopTestRefusesEveryReplace | libfskit/rename.c:51-65 | As written, fskit_inode_set_contains finds a member for any non-empty set, and the set for a separately resolved new parent holds at least the root: every rename onto an existing entry in a different directory that passes the type and emptiness tests is refused with -EINVAL, where the intended test lets it through to the route. |
| Rename.CrowdedDirectoryKeepsOldName | libfskit/rename.c:452-481 | As written, renaming a directory with more than two children leaves it bound under both names, since the ignored detach refuses to unlink it; the intended rename leaves only the new name. |
| Rename.LocateFinds | libfskit/rename.c:234-360 | Locate's success path, stated on the facts it tests. |
| Rename.PrepareFinds | libfskit/rename.c:234-395 | Prepare's success path: a located plan whose entries pass Vet. |
| Rename.VetSameKind | libfskit/rename.c:362-395 | Two entries of one non-directory type pass Vet unless one of their ids is on the new parent's path. |
| Rename.CrowdedExampleKeepsBothNames | libfskit/rename.c:452-481 | rename("/d", "/e") by uid 0 on CrowdedExample with no routes: as written the root ends with both "d" and "e" bound to the directory; as intended only "e". |
| Rename.SameDepthApart | libfskit/rename.c:250-302 | Paths at the same depth with different dirnames: both parents are resolved, the new one first. |
| Rename.ReplaceRefused | libfskit/rename.c:51-65 | As written, rename("/a/x", "/b/y") by uid 0 on such a store is refused and changes nothing. |
| Rename.ReplaceMoves | libfskit/rename.c:225-522 | As intended, the same rename succeeds and moves file 3 from "/a/x" to "/b/y". |
| Rename.ReplaceExampleRefused | libfskit/rename.c:51-65 | rename("/a/x", "/b/y") by uid 0 on ReplaceExample with no routes: as written it is refused with -EINVAL and changes nothing; as intended it succeeds and "/b/y" names the moved file. |
| Rename.DescentMakesCycle | libfskit/rename.c:386-393 | As written, rename("/a", "/a/c/b") by uid 0 with no routes moves "/a" below itself: it succeeds, the root no longer names "a" and has no counted child, "/a/c" binds "b" to entry 1, and entry 1 still binds "c" to entry 2, so the two directories name each other while the root has lost its only counted child. The intended checks refuse it with -EINVAL and leave the store as it was. |
| Rename.DescentExampleMakesCycle | libfskit/rename.c:386-393 | rename("/a", "/a/c/b") by uid 0 on DescentExample with no routes: the cycle as written, -EINVAL as intended. |
| Rename.RenameInDir | libfskit/rename.c:207-219 | fskit_entry_rename_in_directory (rename.c:207-219): -ENOENT unless oldName finds fent; otherwise oldName and newName are removed and newName is bound to fent. The rename route is not run. |
| Rename.RenameInDirRoundTrip | libfskit/rename.c:207-219 | Renaming a name to a fresh one and back restores the child set. |
| Rename.RenameInDirectory | libfskit/rename.c:207-219 | in place on the parent's child set: status and set are `RenameInDir`'s; no other entry changes |
| Rename.FindParents | libfskit/rename.c:250-302 | the parents and status `ResolveParents` gives, resolved in the locking order of the C |
| Rename.LocateEntries | libfskit/rename.c:234-360 | the status and plan `Locate` gives |
| Rename.CheckRename | libfskit/rename.c:234-395 | the status and plan `Prepare` gives under the intended loop test |
| Rename.RetireEntry | libfskit/rename.c:486-509 | The replaced entry's flag, its destruction if unreferenced, and the flag's reset otherwise. |
| Rename.ClearNames | libfskit/rename.c:452-481 | The unlinking half of the commit on the store: old name unbound, the destination's name detached. |
| Rename.InstallName | libfskit/rename.c:467-509 | The linking half of the commit on the store: the entry attached under its new name, the replaced one retired. |
| Rename.CommitRename | libfskit/rename.c:452-509 | The commit of fskit_rename on the store: Commit's effect, under the intended reading. |
| Rename.Rename | libfskit/rename.c:225-522 | fskit_rename: the checks, the rename route, then the commit; its effect on the store is RenameSpec's. |
| Repl.Span | libfskit/repl.c:187-203 | strspn: the length of the leading run of s made of characters in cs. |
| Repl.Strtok | libfskit/repl.c:187-219 | One strtok_r call on the text left in the save pointer: skip the delimiters, take the token up to the next delimiter, and step over that delimiter. No token once only delimiters are left, and then the save pointer is at the end. |
| Repl.StrtokFields | libfskit/repl.c:187-209 | strtok_r hands out the fields one at a time: no token exactly when there are no fields (the save pointer then at the end), else the first field, with the rest of the fields left behind. |
| Repl.LiteralAfterLastWord | libfskit/repl.c:218-220 | The literal last argument of write and setxattr: strtok_r with no delimiters, called after strtok_r found no more words, finds nothing. |
| Repl.LineOf | libfskit/repl.c:172-177 | The text the tokenizer sees: the last character read is overwritten by a NUL, and the C string ends at the first NUL. |
| Repl.MaxArgs | libfskit/repl.c:198-202 | FSKIT_REPL_ARGC_MAX - last_arg_is_literal: the argument count that is refused. |
| Repl.ParseSpec | libfskit/repl.c:134-238 | What fskit_repl_stmt_parse gives back: -ENODATA at the end of the stream, -EBADF on a stream error, no statement and 0 for a line with no words, -EINVAL when the words after the command reach the command's limit, and otherwise the statement made of the line's words. |
| Repl.StmtParse | libfskit/repl.c:134-238 | its status and statement are exactly `ParseSpec`'s for that input, whose meaning `ParseUnparse` and `StrtokFields` state |
| Repl.ParseLine | libfskit/repl.c:134-238 | the strtok_r loop of fskit_repl_stmt_parse: its status and statement are `WordsSpec` of the line's whitespace-separated fields (nothing for a blank line, -EINVAL past MAX_ARGS words, else command and arguments) |
| Repl.Unparse | libfskit/repl.c:172-222 | A statement written as one input line. |
| Repl.FieldsUnwords | libfskit/repl.c:187-209 | Tokenizing words joined by spaces gives the words back. |
| Repl.ParseUnparse | libfskit/repl.c:134-238 | Round trip: a statement of words, with fewer arguments than its command's limit, written as a line, parses back to itself; with as many or more, the line is refused with -EINVAL. |
| Repl.StrToUll | libfskit/repl.c:348-357 | strtoull / strtoul on a 64-bit target (value, index where parsing stopped) in base 8 or 10: leading white space, an optional sign, the longest digit run; an out-of-range magnitude saturates, a '-' negates modulo 2^64, and with no digits the value is 0 and nothing is used. |
| Repl.ParseUint64 | libfskit/repl.c:348-357 | fskit_repl_stmt_parse_uint64: the value is strtoull's, and it fails with -EINVAL exactly when that value is 0 and characters were left unparsed. |
| Repl.ParseMode | libfskit/repl.c:388-397 | fskit_repl_stmt_parse_mode: strtoul in base 8 stored in a 32-bit mode_t; it fails with -EINVAL exactly when the stored value is 0 and characters were left unparsed. |
| Repl.ParseUserGroup | libfskit/repl.c:363-382 | fskit_repl_stmt_parse_user_group: the user and group at argv[offset] and argv[offset + 1]. |
| Repl.Render | libfskit/repl.c:348-357 | A number written in base 8 or 10, most significant digit first. |
| Repl.RenderDigits | libfskit/repl.c:348-357 | A rendered number is all digits of its base. |
| Repl.RenderValue | libfskit/repl.c:348-357 | A rendered number reads back as itself. |
| Repl.StrToUllDigits | libfskit/repl.c:348-357 | strtoull on a digit run below 2^64 followed by a non-digit (or nothing): the run's value, with parsing stopped right after it. |
| Repl.StrToUllRender | libfskit/repl.c:348-357 | strtoull reads a rendered number whole. |
| Repl.ParseUint64Render | libfskit/repl.c:348-357 | Round trip: a decimal number below 2^64 parses back to itself. |
| Repl.ParseModeRender | libfskit/repl.c:388-397 | Round trip through the 32-bit mode_t: an octal number parses back to itself modulo 2^32, so any mode below 2^32 is read exactly, and a longer one is truncated without an error. |
| Repl.ParseUserGroupRender | libfskit/repl.c:363-382 | Two rendered numbers at argv[offset] give that user and group. |
| Repl.ParseUint64NoDigits | libfskit/repl.c:348-357 | A word that does not start with a digit, a sign or white space is refused. |
| Repl.ParseUint64TrailingJunk | libfskit/repl.c:348-357 | Trailing junk after a non-zero number goes unnoticed. |
| Repl.InsertIn | libfskit/repl.c:244-270 | fskit_repl_filedes_insert / fskit_repl_dirdes_insert on the table's contents: the lowest empty slot takes the handle, or -ENFILE when every slot is in use; the other slots are unchanged. |
| Repl.CloseIn | libfskit/repl.c:276-316 | fskit_repl_filedes_close / fskit_repl_dirdes_close on the table's contents, given what closing the handle returns: -EBADF for an index out of range or an empty slot; otherwise the close's status, and the slot is emptied only when that status is 0. |
| Repl.InsertThenClose | libfskit/repl.c:244-293 | A descriptor just handed out and then closed successfully leaves the table as it was. |
| Repl.CloseThenInsert | libfskit/repl.c:244-293 | After a successful close, the next insert succeeds at that slot or below it. |
| Repl.Descriptors.constructor | libfskit/repl.c:75-83 | fskit_repl_new: all HANDLE_MAX slots are empty |
| Repl.Descriptors.Insert | libfskit/repl.c:244-270 | in place: the descriptor and table are `InsertIn`'s (lowest empty slot, or -ENFILE) |
| Repl.Descriptors.Close | libfskit/repl.c:276-316 | in place: status and table are `CloseIn`'s |
| Repl.Descriptors.Lookup | libfskit/repl.c:322-342 | fskit_repl_filedes_lookup / fskit_repl_dirdes_lookup: nothing for a descriptor out of range, else the slot's content |
| Repl.CheckArity | libfskit/repl.c:403-1285 | The dispatch's first test: -EINVAL for an unknown command or a wrong argument count. |
| Repl.ArityParses | libfskit/repl.c:198-216 | Every command's argument count is below its parse limit, so each can be written. |
| Repl.WellFormedLineAccepted | libfskit/repl.c:134-238 | A command line with the right number of words parses and passes the count test. |
| Repl.WriteDataSplit | libfskit/repl.c:198-222 | The literal last argument of write is never kept whole: data with a space in it is split into words like any other argument, and the statement then has one argument too many. |
| Repl.AsInt | libfskit/repl.c:516-523 | C's conversion of the parsed 64-bit descriptor into an int: the low 32 bits, read as a two's-complement number. |
| Repl.CloseCommand | libfskit/repl.c:508-541 | The close and closedir commands on a table's contents: the count test, the descriptor's parse, then the close of the slot its int conversion names. |
| Repl.CloseWraps | libfskit/repl.c:508-524 | "close 4294967296" closes descriptor 0. |
| Resolve.NamesAreComponents | libfskit/path.c:293-495 | The "." appended to a trailing '/' is skipped again: the names are the path's non-"." components. |
| Resolve.TrailingSlashIgnored | libfskit/path.c:293-495 | A trailing '/' does not change what a path names. |
| Resolve.DotComponentSkipped | libfskit/path.c:293-495 | A "." component is skipped: a + "/." + b names what a + b names, b empty or starting with '/'. |
| Resolve.Collect | libfskit/rename.c:68-116 | The inode accumulator of fskit_rename (rename.c:68-114) as its comments describe it: -EINVAL for an id already collected (a path loop), otherwise the id joins the collection. CollectAsWritten is the code as written. |
| Resolve.CollectAsWritten | libfskit/rename.c:72-116 | the accumulator as written: the ids stored so far stay and one member is added; None is the `exit(1)` when a call after the first finds the id among the stored ones |
| Resolve.CollectAsWrittenZeros | libfskit/rename.c:72-116 | with every stored id 0 (the member never gets the file id), the accumulator as written exits exactly on an id-0 entry after the first call and lets every other id through, repeated or not, keeping the stored ids all 0 |
| Resolve.CollectAsWrittenDiffers | libfskit/rename.c:72-116 | after an id 5, a repeated 5 is refused by `Collect` but passes as written, and an id 0 passes `Collect` but exits as written |
| Resolve.PrefixIdOnChain | libfskit/rename.c:72-116 | An entry the lookup reaches on a prefix of the names is the start or one of the entries the whole chain passes: its file id is among the start's and the chain's ids. |
| Resolve.WalkOutcome | libfskit/path.c:293-495 | What the walk can answer: one of five statuses; success exactly when an entry comes back, and that entry is the plain lookup's, is live and still linked (or is where the walk began); the collected ids are the chain's ids, none repeated. |
| Resolve.WalkIdsDistinct | libfskit/rename.c:72-116 | Every id the accumulating walk collects is distinct. |
| Resolve.WalkUserOnlyForSearch | libfskit/path.c:293-495 | Only the search test reads the caller: a walk that is not refused answers the same for uid 0. |
| Resolve.RootNeverRefused | libfskit/path.c:293-495 | uid 0 is never refused a search. |
| Resolve.RootWalkIgnoresPermissions | libfskit/path.c:293-495 | uid 0 passes every search test, so its walk does not depend on any entry's mode, owner or group. |
| Resolve.RootResolvesAsUser | libfskit/path.c:293-495 | A resolution that is not refused a search finds what uid 0 finds. |
| Resolve.RootResolveIgnoresPermissions | libfskit/path.c:293-495 | Resolution as uid 0 does not depend on any entry's mode, owner or group. |
| Resolve.ResolveOutcome | libfskit/path.c:293-495 | Resolution outcomes: an empty path is -EINVAL; otherwise the status is one of 0, -ENOENT, -ENOTDIR, -EACCES (and -EINVAL for a collected id seen twice); success returns the entry the plain lookup of the path's non-"." components reaches, which is live and linked. |
| Resolve.ResolvePath | libfskit/path.c:293-495 | The walk of fskit_entry_resolve_path_cls: from the root, one name at a time, with the checks of Walk at each step. |
| Resolve.RefStore | libfskit/path.c:797-811 | fskit_entry_ref: resolve as uid 0, gid 0, and count one more open. |
| Resolve.UnrefStore | libfskit/path.c:825-863 | fskit_entry_unref: count one open less, and when neither links nor opens remain, try to destroy the entry (running its destroy route, whose status is discarded). The result is always 0. |
| Resolve.RefUnrefRoundTrip | libfskit/path.c:797-863 | A reference taken and dropped on a linked entry leaves the store as it was. |
| Resolve.Ref | libfskit/path.c:797-811 | its status, the entry found and the new store are exactly those `RefStore` gives; the core stays valid |
| Resolve.Unref | libfskit/path.c:825-863 | its status and the new store are exactly those `UnrefStore` gives on the old store, and the core stays valid (every reference of every entry names an entry) |
| Rmdir.RmdirSpec | libfskit/rmdir.c:37-155 | What fskit_rmdir does to the store. The path-length test and the basename-length test look at the path as given; everything after them works on the path without its trailing '/'. The target must be a directory whose child set holds nothing but "." and "..". |
| Rmdir.RmdirSanitized | libfskit/rmdir.c:37-155 | The part of fskit_rmdir after the length tests, on the sanitized path. |
| Rmdir.RmdirStatus | libfskit/rmdir.c:37-155 | The statuses fskit_rmdir can return. |
| Rmdir.RmdirRefusals | libfskit/rmdir.c:37-155 | Once the parent is found: -ENOENT for an absent name, -ENOTDIR for a target that is not a directory, -ENOTEMPTY for a child set holding more than "." and ".."; none of them changes anything. |
| Rmdir.RmdirRemoves | libfskit/rmdir.c:37-155 | An empty directory other than the parent itself is detached: its name leaves the parent, the other names stay, the result is 0, and it is destroyed exactly when it had at most one link and no opens; otherwise it keeps one link less. |
| Rmdir.RmdirTrailingSlash | libfskit/rmdir.c:37-155 | A path that ends in a '/' and its length-checked form without it give the same result. |
| Rmdir.RmdirRefusesWhatUnlinkRemoves | libfskit/rmdir.c:37-155 | fskit_rmdir and fskit_unlink test emptiness differently: a directory with one child has three names in its set, which rmdir refuses, but only one counted child, which the detach under fskit_unlink accepts. |
| Rmdir.Rmdir | libfskit/rmdir.c:37-155 | its status and the new store are exactly those `RmdirSpec` gives on the old store, and the core stays valid (every reference of every entry names an entry) |
| Route.RunUser | libfskit/trunc.c:48-68 | The common tail of fskit_run_user_{detach,destroy,rename,trunc,read, stat,readdir}: -EPERM from route_call means "no route" and is success; otherwise the callback's status is returned. Their test for -ENOSYS from route_call is dead: fskit_route_call returns only -EPERM or 0 (route.c:705-744), and a missing callback's -ENOSYS (route.c:498) arrives in cbrc, so it is returned as an error like any other status. |
| Route.Insert | libfskit/route.c:159-209 | fskit_route_table_insert: the row of the type is made if it is not there; the route goes in the lowest NULL slot, else at the end; the id returned is the slot's index. Nothing else in the table changes. |
| Route.Find | libfskit/route.c:228-243 | fskit_route_table_find: no row, or an id past the row's end, finds nothing; otherwise the slot's content. |
| Route.Remove | libfskit/route.c:247-282 | fskit_route_table_remove: the slot's content comes back and the slot becomes NULL; the row goes once it holds no route. An unknown type or an id past the row's end removes nothing. |
| Route.LowestNull | libfskit/route.c:159-209 | the index of the lowest NULL slot, or the row length when there is none (`FreeSlot`) |
| Route.AnyInUse | libfskit/route.c:247-282 | true exactly when some slot of the row still holds a route |
| Route.OpenGroupsCounts | libfskit/route.c:341-358 | The count is the number of group-opening positions, and no more than the string's length. |
| Route.NumExpectedMatches | libfskit/route.c:341-358 | fskit_num_expected_matches: one more than the number of group-opening parentheses. Whether a backslash itself is escaped is not looked at. |
| Route.NumExpectedExample | libfskit/route.c:341-358 | An escaped parenthesis opens no group, an unescaped one does. |
| Route.FirstHit | libfskit/route.c:642-673 | The first slot of the row that hits, in index order. |
| Route.FirstHitSpec | libfskit/route.c:642-673 | The first hit hits and nothing before it does; no hit means no slot hits. |
| Route.MatchRoute | libfskit/route.c:642-673 | fskit_route_match: the slots of the type's row in index order, skipping routes that are not defined; the first whose regex matches wins. |
| Route.CallRoute | libfskit/route.c:705-744 | fskit_route_call for a request of type ty on path: no hit is -EPERM and runs nothing; otherwise the first hit's callback runs, and a route without one gives -ENOSYS (fskit_safe_dispatch). |
| Route.CallWithoutMatch | libfskit/route.c:705-744 | With nothing matching, fskit_route_call reports -EPERM whatever the callbacks would do, and the run_user wrappers take it as success. |
| Route.Declare | libfskit/route.c:990-1013 | fskit_path_route_decl: a regex that does not compile is -EINVAL and changes nothing; otherwise the new route is inserted and its route id comes back. |
| Route.Undeclare | libfskit/route.c:1018-1042 | fskit_path_route_undecl: -EINVAL when the handle names no route; otherwise 0, the route gone. |
| Route.UndeclareUnknown | libfskit/route.c:1018-1042 | On a table that keeps no empty rows, undeclaring an unknown handle changes nothing. |
| Route.DeclareThenUndeclare | libfskit/route.c:990-1042 | Declaring a route and undeclaring it again leaves a table where every lookup finds what it found before (the row may keep a trailing NULL slot). |
| Route.FreedSlotReused | libfskit/route.c:159-282 | A freed slot is reused: when every slot below handle holds a route, undeclaring handle and declaring again hands out the same id. |
| Route.DeclareRename | libfskit/route.c:1311-1321 | fskit_route_rename: a discipline other than sequential or concurrent is -EINVAL before anything is declared; otherwise a rename route is declared. |
| Route.RenameRefusesInodeDisciplines | libfskit/route.c:1311-1321 | The per-inode disciplines are refused for rename routes, whatever the regex. |
| Route.RouteTable.constructor | libfskit/route.c:46-56 | fskit_route_table_new: a table with no rows |
| Route.RouteTable.InsertRoute | libfskit/route.c:159-209 | in place: the new id and rows are `Insert`'s |
| Route.RouteTable.RemoveRoute | libfskit/route.c:247-282 | in place: the removed route and rows are `Remove`'s |
| Route.RouteTable.DeclareRoute | libfskit/route.c:990-1013 | in place: status and rows are `Declare`'s |
| Route.RouteTable.UndeclareRoute | libfskit/route.c:1018-1042 | in place: status and rows are `Undeclare`'s |
| Route.RouteTable.RouteRename | libfskit/route.c:1311-1321 | in place: status and rows are `DeclareRename`'s |
| Slots.FreeSlot | libfskit/route.c:159-209 | The lowest NULL slot, or one past the end when every slot is in use. |
| Slots.FreeSlotSpec | libfskit/route.c:159-209 | Every slot below the free one is in use, and the free one, if inside, is NULL. |
| Slots.FreeSlotIs | libfskit/route.c:159-209 | Those two facts pin the free slot down. |
| Stat.TypeBits | libfskit/stat.c:84-114 | The file-type code of a live entry type: bits inside S_IFMT only. |
| Stat.FullMode | libfskit/stat.c:84-114 | fskit_fullmode: the type code ORed into the mode for a live type; -EINVAL (as an unsigned mode_t) for any other type, DEAD included. The bits outside S_IFMT are the mode's own. |
| Stat.KindOfMode | libfskit/stat.c:84-114 | The entry type a file-type code stands for (DEAD for none). |
| Stat.FullModeRoundTrip | libfskit/stat.c:84-114 | For a mode without type bits, the full mode of a live entry is its type code next to its permission bits: the code gives the type back, and the rest gives the mode back. |
| Stat.FullModeSeparatesTypes | libfskit/stat.c:84-114 | Two live entries with different types never share a full mode, whatever their modes. |
| Stat.EntryStat | libfskit/stat.c:122-146 | fskit_entry_fstat: the device and block fields are 0; everything else is read off the entry, the mode through fskit_fullmode. |
| Stat.StatSpec | libfskit/stat.c:58-81 | fskit_stat. The route is given the entry, or nothing when the path does not resolve; hook says what the stat route does for each. The resolution is fskit_entry_ref's, as uid 0, so the caller's ids play no part. The record is returned whenever the entry resolved. |
| Stat.StatOutcome | libfskit/stat.c:58-81 | What fskit_stat answers once the name is short enough: for a path that resolves, the stat route's status and the entry's record; for one that does not, the route's status when asked about no entry, and no record. The store always ends as it began, the open count included. |
| Stat.StatMissingNoRoute | libfskit/stat.c:28-81 | With no stat route, a path that does not resolve still gets 0, and no record. |
| Stat.StatIgnoresCaller | libfskit/stat.c:58-81 | The caller's uid and gid do not change what fskit_stat answers. |
| Stat.StatNameLimitStricter | libfskit/stat.c:58-81 | The name limit of fskit_stat is one shorter than that of the others: a basename of exactly NAMEMAX characters is refused here and not by fskit_trunc. |
| Stat.StatAfterChmod | libfskit/stat.c:58-81 | After a successful chmod, fskit_stat of the same path reports the new mode with the entry's type code. |
| Stat.StatPath | libfskit/stat.c:58-81 | its status, stat record and new store are exactly those `StatSpec` gives on the old store; the core stays valid |
| Trunc.TruncCont | libfskit/trunc.c:30-42 | fskit_trunc_cont: the truncate route reported truncRc; only a 0 makes the entry take the new size and touches its modification and access times. Everything else about the entry stays. |
| Trunc.RunTrunc | libfskit/trunc.c:48-68 | The effect of fskit_run_user_trunc on the entry: the continuation runs inside the called route, with that route's status; with no route, it never runs. |
| Trunc.SetSize | libfskit/trunc.c:75-79 | fskit_entry_set_size: the size changes and nothing else; always 0. |
| Trunc.TruncResolved | libfskit/trunc.c:106-156 | The inner steps of fskit_trunc once the entry is resolved: it is referenced around the route. |
| Trunc.TruncSpec | libfskit/trunc.c:106-156 | fskit_trunc: -ENAMETOOLONG for a long basename and the resolution's own error; after that its status is the destroy attempt's, so the truncate route's status is lost. |
| Trunc.TruncEffect | libfskit/trunc.c:106-156 | On a resolved entry, fskit_trunc changes that entry only, as the continuation says: the open count comes back to where it was and the entry, still linked, is not destroyed. |
| Trunc.TruncNoRoute | libfskit/trunc.c:106-156 | With no truncate route, fskit_trunc reports 0 and leaves the size (and everything else) alone. |
| Trunc.TruncDropsRouteStatus | libfskit/trunc.c:106-156 | The status defect of fskit_trunc: a route that fails (any status but 0) leaves the size alone, yet fskit_trunc still reports success. |
| Trunc.FTruncSpec | libfskit/trunc.c:84-100 | fskit_ftrunc: -EBADF unless the handle was opened for writing; otherwise the truncate route's own status, after its continuation has acted on the handle's entry. |
| Trunc.FTruncReadOnly | libfskit/trunc.c:84-100 | A handle opened read-only cannot truncate. |
| Trunc.TruncPath | libfskit/trunc.c:106-156 | its status and the new store are exactly those `TruncSpec` gives on the old store, and the core stays valid (every reference of every entry names an entry) |
| Trunc.TruncEntry | libfskit/trunc.c:106-156 | The steps of fskit_trunc on a resolved entry: reference it, run the route, release it, try to destroy it. |
| Trunc.FTrunc | libfskit/trunc.c:84-100 | its status and the new store are exactly those `FTruncSpec` gives on the old store, and the core stays valid (every reference of every entry names an entry) |
| Unlink.UnlinkSpec | libfskit/unlink.c:32-136 | What fskit_unlink does to the store. The detach route's status is discarded (a failing route is logged and ignored), and so is that of the destroy route; a -ENOENT from the detach itself, which is what a ".." basename gets, still goes on to the route and the destroy attempt. |
| Unlink.UnlinkStatus | libfskit/unlink.c:32-136 | The statuses fskit_unlink can return, and which of them leave the store alone. |
| Unlink.UnlinkResolveError | libfskit/unlink.c:32-136 | A failed parent resolution is returned as it is. |
| Unlink.UnlinkMissing | libfskit/unlink.c:32-136 | A parent that is not a directory gives -ENOTDIR; a name it lacks gives -ENOENT. |
| Unlink.UnlinkRemoves | libfskit/unlink.c:32-136 | There is no type test on the entry: any entry detach accepts, a directory with at most two counted children included, is unlinked. Its name leaves the parent, the other names stay, and the entry is destroyed exactly when it had at most one link and no opens; otherwise it keeps one link less. |
| Unlink.UnlinkCrowded | libfskit/unlink.c:32-136 | A directory entry with more than two counted children is refused, and nothing changes. |
| Unlink.UnlinkDotDotSucceeds | libfskit/unlink.c:32-136 | A ".." basename of a non-root parent is found but not removed: unless the grandparent is a directory with more than two counted children (then detach says -ENOTEMPTY), the set refuses the name, detach says -ENOENT, and fskit_unlink still reports 0, leaving ".." in place. |
| Unlink.UnlinkIgnoresDetachRoute | libfskit/unlink.c:32-136 | The detach route cannot change what fskit_unlink does. |
| Unlink.Unlink | libfskit/unlink.c:32-136 | its status and the new store are exactly those `UnlinkSpec` gives on the old store, and the core stays valid (every reference of every entry names an entry) |
| Xattr.Insert | libfskit/entry.c:1761-1827 | fskit_xattr_set_insert. A NULL name or value is -EINVAL. Only when the set is non-NULL are the flags consulted: -EEXIST for a present name under XATTR_CREATE, -ENOATTR for an absent one under XATTR_REPLACE. Otherwise any old binding is replaced by a copy of the value. |
| Xattr.Remove | libfskit/entry.c:1855-1877 | fskit_xattr_set_remove: drop the binding; true iff it was present. |
| Xattr.InsertErrors | libfskit/entry.c:1761-1827 | The error cases of Insert, in the order the code tests them. |
| Xattr.InsertThenFind | libfskit/entry.c:1761-1849 | After a successful Insert the name finds the new value; other names are unchanged. |
| Xattr.RemoveThenFind | libfskit/entry.c:1833-1877 | Remove reports presence and leaves the name absent; other names are unchanged. |

## Left out

- Concurrency. The pthread read/write locks and the route consistency disciplines are left out, and so is the order in which rename takes its locks. The operations are modelled one at a time. `Route.DeclareRename` checks the discipline value but gives it no meaning.
- Regular expressions. `regcomp` and `regexec` are a foreign library. Whether a regex compiles is a parameter of `Route.Declare`. Whether a route matches a path is a predicate given to `Route.MatchRoute`.
- Route callbacks. What a callback does is outside the model: `Route.Dispatch` records only whether one ran and the status it returned. The one exception is the truncate continuation `Trunc.TruncCont`, which is library code. The `-EPERM` that `fskit_route_call` returns when populating the route metadata fails (an allocation failure) is not modelled.
- Listxattr.Flistxattr: says nothing about what a listxattr route writes into the caller's buffer, because callbacks are outside the model.
- Clock. `clock_gettime` is replaced by a `now` parameter, one reading per operation.
- Random numbers. Random file ids and `telldir` offsets are left out. File ids are entry fields that the caller chooses.
- Memory. Allocation and freeing are left out: calloc, strdup and free. No out-of-memory path (-ENOMEM) is taken, except where the C returns -ENOMEM for a resolution with no entry and no error (`Chmod.ChmodSpec`, `Chown.ChownSpec`), and the lemmas show that case cannot arise. A DEAD entry stays in the store instead of being freed.
- Memory-safety bugs. The double free at the end of `fskit_rename` and the unlock of a NULL entry in `fskit_rmdir` and `fskit_unlink` are not modelled.
- Undefined behaviour the model excludes by a precondition or a choice:
  - negative route ids in `fskit_route_table_remove` and `fskit_path_route_undecl` (a negative vector index): `Route.RouteTable.RemoveRoute` and `Route.RouteTable.UndeclareRoute` require the id to be non-negative;
  - a NULL slot reached by `fskit_route_match`: the C dereferences it, and the model skips it;
  - a NULL root from `fskit_core_resolve_root`: the C dereferences it, and `Resolve` answers -ENOENT;
  - the `int` overflow of a very long xattr name list: `Listxattr` uses unbounded integers.
- Detach.DropLinkSpec: does not model the abort on a negative link count. `fskit_detach_all_ex` lowers the link count of every entry it dequeues without a check (libfskit/entry.c:669), and `fskit_entry_try_destroy` calls `exit` when an unreferenced entry's link count is negative (libfskit/entry.c:1229-1233). The model instead requires a link to drop (`s[r].linkCount >= 1`). `Detach.DetachAllEx` and `Detach.DetachAll` require `LinksCover`: every entry's link count is at least the number of its queued items plus the names that child sets bind to it, stated as the comment at libfskit/entry.c:667-668 assumes. `Detach.RootCovered` shows that a fresh core satisfies it, `Detach.StepCover` that a turn keeps it, and `Detach.HeadLinked` that every dequeued entry then has a link. The `Links` lemmas show that every store-changing operation keeps the part of the invariant that concerns child sets (`Links.Covered`): attach, detach, destroy, garbage tagging and collection (as written and as intended), xattr edits, unlink, rmdir, truncate, chmod, chown, ref and unref, and rename with the one exception below. `Detach.DetachAllEx` and `Detach.DetachAll` hand it back on success. A store whose counts fall short of its bindings, where the C would run into the abort, is outside the model. Elsewhere well-formedness keeps counts at 0 or above; only `Entry.TryGarbageCollectAsWritten` reaches a negative count (see Findings).
- sglib internals. The red-black tree and the vectors become sorted sequences and maps. `EntrySet.Insert` (sglib's add) rebinds a name that is already present. No caller in the core inserts a name that is already bound.
- Small accessors. The getters of the entry fields are left out: each is a single field read. `Entry.Core` exposes the fields directly.
- FUSE adapter and old rename. The FUSE adapter and the superseded `libfskit/rename.cpp` are not part of this model.
- REPL I/O, left out or made a parameter:
  - `getline` is replaced by an `Input` value (a line, end of stream, or a stream error);
  - a `getline` failure that is neither end of stream nor a stream error (`-errno`) is not modelled, and neither is the dead `len == 0` branch;
  - `fskit_repl_main`, `fskit_repl_free`, the dispatch's debug and printf output, and the dispatch's calls into the filesystem operations are left out. The operations themselves are modelled in their own modules.
  - Of the dispatch, the model keeps the argument-count test of every command and the whole `close`/`closedir` path.
- Detach.DetachAllEx: states the outcome of the walk, not its exact final store. On 0, the queue is empty and every entry queued is drained (a drained directory is marked and holds only "." and ".."); drained entries stay drained on every outcome; -EFAULT records CB_FAIL and a negative status; -EIO comes only from the tagger, for a directory without "..". A closed form of the final store would repeat the loop.
- Detach.DetachAll: inherits the outcome-level contract of `Detach.DetachAllEx`. It adds that resolution errors come back unchanged and that on 0 the directory itself is drained.
- Readdir.DirHandle.ReadLowlevel: uses the intended resumption after a vanished name, and so do `Readdir.DirHandle.Readdir` and `Readdir.DirHandle.Listdir`. The as-written behaviour is `Readdir.Lowlevel` with `AsWritten` (see Findings).
- Resolve.Collect: is the accumulator as the comment at libfskit/rename.c:68-70 describes it: a repeated id gives -EINVAL. As written, the member it adds never gets the entry's file id (rename.c:88-89, 113), so every member holds 0. A later entry with file id 0 then makes the walk call `exit(1)` (rename.c:104), the -EINVAL return at rename.c:106 is dead, and repeated non-zero ids pass. `Resolve.CollectAsWritten` states that reading, but `Resolve.Walk` uses the commented one, so the model does not include the exit (see Findings).
- Links.RenameCover: requires that the rename not move an entry into itself (`Links.IntoItself`). As written, `rename("/a", "/a/b")` with no "/a/b" reaches the commit, because the loop test at libfskit/rename.c:386-393 runs only when the destination name exists (see Findings). The commit then attaches "/a" under its own child set, and `fskit_entry_attach_lowlevel` adds no link when parent and child are the same entry (libfskit/entry.c:309-329). `Links.SelfAttachBreaksCover` shows that such an attach leaves a directory whose links were all accounted for uncovered, so no cover is promised after it. Under the intended loop test `Links.IntendedIntoItselfCommon` leaves one way in: a common parent and an old basename that the parent binds to itself, as "." does in `rename("/a/.", "/a/b")`. The source has no test for that case either, and the model does not add one.
- Rename.Rename: implements the intended loop test and the intended unbinding of the old name. The intended loop test looks up the destination's id and, whether or not a destination exists, the moved entry's id among the ids on the way to the new parent. The as-written readings are stated through `Rename.RenameWith` with `AsWritten` (see Findings).

## Findings

| source | as written | input that shows it | evidently intended | confidence | as-written member | corrected member |
|---|---|---|---|---|---|---|
| libfskit/rename.c:51-65 | `fskit_inode_set_contains` never copies the file id into its lookup key. The accumulator at rename.c:88-114 never stores an id in the members it adds. So the loop test at rename.c:390 finds a "loop" in any non-empty set. | `rename("/a/x", "/b/y")` by uid 0, where both files exist in two different directories: refused with -EINVAL | the rename goes through to the route and moves the file, as the comments at rename.c:49-50 and 68-71 describe | high, not executed | Rename.LoopTestRefusesEveryReplace, Rename.ReplaceExampleRefused | Rename.ReplaceMoves, Rename.RenameMovesEntry |
| libfskit/readdir.c:114-158 | when the cursor's last name has left the directory, `fskit_readdir_find_start` returns the first name above it. `fskit_readdir_lowlevel` then starts one member past that name, as if it had already been read. | directory ". .. a b c"; read ". .. a"; unlink "a"; read again: only "c" comes back | the next read returns "b" and then "c" | high, not executed | Readdir.ResumeAsWrittenSkips, Readdir.VanishedExampleSkipsB | Readdir.ResumeAtFirstAbove, Readdir.VanishedExampleKeepsB |
| libfskit/entry.c:1295-1353 | `fskit_entry_try_garbage_collect` lowers the parent's child count once in the detach and again after the destroy | the root holding one file "f", linked once, not open, marked for deletion; collecting "/f" leaves the root's count at -1 | the count is lowered once, together with the removal of the name | medium, not executed | Entry.TryGarbageCollectAsWritten, Entry.GcExampleGoesNegative | Entry.TryGarbageCollect, Entry.TryGarbageCollectKeepsCount |
| libfskit/rename.c:452-481 | the commit ignores the status of `fskit_entry_detach_lowlevel` on the old name. Detach refuses a directory with more than two counted children, so such a directory stays bound under its old name too. | `rename("/d", "/e")` by uid 0, where "/d" holds the files "f", "g" and "h": afterwards the root binds both "d" and "e" to the directory | the old name is unbound whatever the directory holds | high, not executed | Rename.CrowdedDirectoryKeepsOldName, Rename.CrowdedExampleKeepsBothNames | Rename.RenameMovesEntry |
| libfskit/rename.c:72-116 | `fskit_entry_resolve_inodes_cb` never copies the entry's file id into the member it adds, so every member holds 0. From the second call on, the lookup at rename.c:101 hits exactly on an entry whose file id is 0, and the hit calls `exit(1)` before its -EINVAL return. | collecting the ids on a path through the root (id 0, the first call), an entry with id 5, and an entry with id 0: the process exits; a path meeting id 5 twice passes | a repeated file id is detected and refused with -EINVAL, as the comment at rename.c:68-70 says, and no other id stops the walk | medium, not executed | Resolve.CollectAsWritten, Resolve.CollectAsWrittenZeros, Resolve.CollectAsWrittenDiffers | Resolve.Collect |
| libfskit/rename.c:386-393 | the loop test runs only when the destination name exists. It looks up the destination's file id among the ids on the way to the new parent, never the moved entry's. So a directory can be moved below itself onto a free name. | directories "/a" and "/a/c", no "/a/c/b"; `rename("/a", "/a/c/b")` by uid 0 succeeds. The root loses "a", "/a/c" binds "b" to "/a", and "/a" still binds "c" to "/a/c": two directories that name each other, cut off from the root. | no directory is moved into itself or below itself: such a rename is refused with -EINVAL, as the comments at rename.c:389 and 392 say | high, not executed | Rename.BelowItselfCommitsAsWritten, Rename.DescentMakesCycle, Rename.DescentExampleMakesCycle | Rename.Vet, Rename.BelowItselfRefused, Links.IntendedIntoItselfCommon |
