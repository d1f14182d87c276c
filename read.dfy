// fskit_read and fskit_run_user_read (libfskit/read.c).
module Read {
  import opened Errno
  import Route
  import opened Handle

  /**
   * What the read route is given: the handle's path, entry and handle
   * data, and the caller's buffer length and offset (the buffer itself is
   * the route's to fill).
   */
  datatype ReadRequest = ReadRequest(path: string, ent: nat, appData: int, bufLen: nat, offset: int)

  /** The request fskit_read hands to the read route for a handle. */
  function RequestOf(fh: FileHandle, bufLen: nat, offset: int): (q: ReadRequest)
    ensures q.path == fh.path && q.ent == fh.ent && q.appData == fh.appData
    ensures q.bufLen == bufLen && q.offset == offset
  {
    ReadRequest(fh.path, fh.ent, fh.appData, bufLen, offset)
  }

  /**
   * fskit_run_user_read: no route means 0 bytes read; otherwise the
   * route's own status (a byte count or a negative errno).
   */
  function RunUserRead(hook: ReadRequest -> Route.Dispatch, q: ReadRequest): (n: int)
    ensures hook(q).NoRoute? ==> n == 0
    ensures hook(q).Called? ==> n == hook(q).cbrc
  {
    Route.RunUser(hook(q))
  }

  /** fskit_read: -EBADF for a handle opened write-only; otherwise the read route for this handle's request. */
  function ReadSpec(fh: FileHandle, bufLen: nat, offset: int, hook: ReadRequest -> Route.Dispatch): (n: int)
    ensures fh.flags & O_WRONLY != 0 ==> n == -EBADF
    ensures fh.flags & O_WRONLY == 0 ==> n == RunUserRead(hook, RequestOf(fh, bufLen, offset))
  {
    if fh.flags & O_WRONLY != 0 then -EBADF
    else RunUserRead(hook, RequestOf(fh, bufLen, offset))
  }

  /**
   * Which handles may read: read-only and read-write ones pass the test,
   * write-only ones do not; and the answer for a readable handle depends
   * on the request only.
   */
  lemma ReadAccess(fh: FileHandle, bufLen: nat, offset: int, hook: ReadRequest -> Route.Dispatch)
    ensures fh.flags == O_WRONLY ==> ReadSpec(fh, bufLen, offset, hook) == -EBADF
    ensures fh.flags == O_RDONLY || fh.flags == O_RDWR ==>
              ReadSpec(fh, bufLen, offset, hook) == Route.RunUser(hook(RequestOf(fh, bufLen, offset)))
  {
  }

  /** With no read route, a readable handle reads 0 bytes. */
  lemma ReadNoRoute(fh: FileHandle, bufLen: nat, offset: int)
    requires fh.flags & O_WRONLY == 0
    ensures ReadSpec(fh, bufLen, offset, _ => Route.NoRoute) == 0
  {
  }

  /** Handles that agree on path, entry and handle data read the same, whatever else they hold. */
  lemma ReadSeesOnlyRequest(f1: FileHandle, f2: FileHandle, bufLen: nat, offset: int, hook: ReadRequest -> Route.Dispatch)
    requires f1.path == f2.path && f1.ent == f2.ent && f1.appData == f2.appData
    requires f1.flags & O_WRONLY == f2.flags & O_WRONLY
    ensures ReadSpec(f1, bufLen, offset, hook) == ReadSpec(f2, bufLen, offset, hook)
  {
  }
}
