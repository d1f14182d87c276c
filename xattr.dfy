// An entry's extended attributes (fskit_xattr_set, libfskit/entry.c:1725-1884):
// names in strcmp order, each bound to a byte value of known length. The
// set a fresh entry has is NULL, the empty sequence here.
module Xattr {
  import opened Opt
  import opened Errno
  import A = Assoc

  type Value = seq<char>
  type XSet = A.Assoc<Value>

  const XATTR_CREATE: bv32 := 1
  const XATTR_REPLACE: bv32 := 2

  ghost predicate Valid(x: XSet) { A.Sorted(x) }

  /**
   * fskit_xattr_set_insert. A NULL name or value is -EINVAL. Only when the
   * set is non-NULL are the flags consulted: -EEXIST for a present name
   * under XATTR_CREATE, -ENOATTR for an absent one under XATTR_REPLACE.
   * Otherwise any old binding is replaced by a copy of the value.
   */
  function Insert(x: XSet, name: Option<string>, value: Option<Value>, flags: bv32): (r: (int, XSet))
    requires Valid(x)
    ensures Valid(r.1)
    ensures r.0 != 0 ==> r.1 == x
  {
    if name.None? || value.None? then (-EINVAL, x)
    else if |x| > 0 && A.Find(x, name.value).Some? && flags & XATTR_CREATE != 0 then (-EEXIST, x)
    else if |x| > 0 && A.Find(x, name.value).None? && flags & XATTR_REPLACE != 0 then (-ENOATTR, x)
    else
      var x1 := Remove(x, name.value).1;
      A.InsertSorted(x1, name.value, value.value);
      (0, A.Insert(x1, name.value, value.value))
  }

  /** fskit_xattr_set_find: the value (its length is |value|), or NULL. */
  function Find(x: XSet, name: string): Option<Value> { A.Find(x, name) }

  /** fskit_xattr_set_remove: drop the binding; true iff it was present. */
  function Remove(x: XSet, name: string): (r: (bool, XSet))
    requires Valid(x)
    ensures Valid(r.1)
  {
    A.RemoveSorted(x, name);
    (Find(x, name).Some?, A.Remove(x, name))
  }

  /** fskit_xattr_set_count */
  function Count(x: XSet): nat { |x| }

  /** The error cases of Insert, in the order the code tests them. */
  lemma InsertErrors(x: XSet, name: Option<string>, value: Option<Value>, flags: bv32)
    requires Valid(x)
    ensures (name.None? || value.None?) <==> Insert(x, name, value, flags).0 == -EINVAL
    ensures (name.Some? && value.Some? && |x| > 0 && Find(x, name.value).Some? && flags & XATTR_CREATE != 0)
              ==> Insert(x, name, value, flags).0 == -EEXIST
    ensures (name.Some? && value.Some? && |x| > 0 && Find(x, name.value).None? && flags & XATTR_REPLACE != 0)
              ==> Insert(x, name, value, flags).0 == -ENOATTR
    ensures name.Some? && value.Some? && x == [] ==> Insert(x, name, value, flags).0 == 0
  {
  }

  /** After a successful Insert the name finds the new value; other names are unchanged. */
  lemma InsertThenFind(x: XSet, name: string, value: Value, flags: bv32, other: string)
    requires Valid(x) && Insert(x, Some(name), Some(value), flags).0 == 0
    ensures Find(Insert(x, Some(name), Some(value), flags).1, name) == Some(value)
    ensures other != name ==> Find(Insert(x, Some(name), Some(value), flags).1, other) == Find(x, other)
  {
    var x1 := Remove(x, name).1;
    A.FindInsert(x1, name, value, name);
    A.FindInsert(x1, name, value, other);
    A.FindRemove(x, name, other);
  }

  /** Remove reports presence and leaves the name absent; other names are unchanged. */
  lemma RemoveThenFind(x: XSet, name: string, other: string)
    requires Valid(x)
    ensures Remove(x, name).0 <==> Find(x, name).Some?
    ensures Find(Remove(x, name).1, name) == None
    ensures other != name ==> Find(Remove(x, name).1, other) == Find(x, other)
    ensures Count(Remove(x, name).1) == if Find(x, name).Some? then Count(x) - 1 else Count(x)
  {
    A.FindRemove(x, name, name);
    A.FindRemove(x, name, other);
    A.RemoveLength(x, name);
  }
}
