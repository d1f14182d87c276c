// An open file (struct fskit_file_handle, include/fskit_private/private.h:96-109)
// and the open(2) access flags its operations test.
module Handle {
  import Entry

  /** The access flags of <fcntl.h> that fskit tests. */
  const O_RDONLY: bv32 := 0
  const O_WRONLY: bv32 := 1
  const O_RDWR: bv32 := 2

  /**
   * A file handle: the entry it refers to, the path it was opened by, the
   * open flags, the file id and the application's handle data (an opaque
   * token standing for the void* pointer).
   */
  datatype FileHandle = FileHandle(ent: Entry.Ref, path: string, flags: bv32, fileId: nat, appData: int)
}
