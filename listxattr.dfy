// Listing the names of an entry's extended attributes
// (libfskit/listxattr.c): the length query, the NUL-terminated copy of
// the names in set order, the range check, and the listxattr route that
// may answer before the built-in listing does.
module Listxattr {
  import opened Errno
  import opened Strs
  import X = Xattr
  import Route
  import opened Entry
  import opened Resolve

  /** The list fskit_listxattr_copy_names writes: every name followed by a NUL, in set order. */
  function Packed(x: X.XSet): string
  {
    if |x| == 0 then [] else x[0].0 + [NUL] + Packed(x[1..])
  }

  /** What fskit_listxattr_len adds up: strlen(name) + 1 for every name; 0 for no names. */
  function TotalLen(x: X.XSet): nat
  {
    if |x| == 0 then 0 else |x[0].0| + 1 + TotalLen(x[1..])
  }

  /** The names of the set, in set order. */
  function Names(x: X.XSet): (names: seq<string>)
    ensures |names| == |x|
  {
    if |x| == 0 then [] else [x[0].0] + Names(x[1..])
  }

  /** Names as C strings carry them: non-empty and without a NUL inside. */
  ghost predicate CNames(x: X.XSet)
  {
    forall i :: 0 <= i < |x| ==> 0 < |x[i].0| && NUL !in x[i].0
  }

  /** The length query answers exactly the size of the list the copy writes. */
  lemma {:induction false} PackedLength(x: X.XSet)
    ensures |Packed(x)| == TotalLen(x)
  {
    if |x| > 0 {
      PackedLength(x[1..]);
    }
  }

  /** Every name takes at least one byte, so the total is 0 exactly when the set is empty. */
  lemma {:induction false} TotalLenBounds(x: X.XSet)
    ensures |x| <= TotalLen(x)
    ensures TotalLen(x) == 0 <==> |x| == 0
  {
    if |x| > 0 {
      TotalLenBounds(x[1..]);
    }
  }

  /** Listing a set that is split in two lists the first part, then the second. */
  lemma {:induction false} PackedAppend(a: X.XSet, b: X.XSet)
    ensures Packed(a + b) == Packed(a) + Packed(b)
  {
    if |a| == 0 {
      assert a + b == b;
    } else {
      assert (a + b)[0] == a[0];
      assert (a + b)[1..] == a[1..] + b;
      PackedAppend(a[1..], b);
    }
  }

  /** The i-th name listed is the name of the i-th member. */
  lemma {:induction false} NamesAt(x: X.XSet, i: nat)
    requires i < |x|
    ensures Names(x)[i] == x[i].0
  {
    if i > 0 {
      NamesAt(x[1..], i - 1);
    }
  }

  /** The names come out in ascending strcmp order, since that is the set's order. */
  lemma NamesAscend(x: X.XSet)
    requires X.Valid(x)
    ensures forall i, j :: 0 <= i < j < |Names(x)| ==> StrLess(Names(x)[i], Names(x)[j])
  {
    forall i, j | 0 <= i < j < |Names(x)|
      ensures StrLess(Names(x)[i], Names(x)[j])
    {
      NamesAt(x, i);
      NamesAt(x, j);
    }
  }

  /** Splitting the list at its NULs gives back the names, in order: the list is decodable. */
  lemma {:induction false} PackedSplits(x: X.XSet)
    requires CNames(x)
    ensures Fields(Packed(x), {NUL}) == Names(x)
  {
    if |x| > 0 {
      var w := x[0].0;
      assert CNames(x[1..]) by {
        forall i | 0 <= i < |x[1..]| ensures 0 < |x[1..][i].0| && NUL !in x[1..][i].0 {
          assert x[1..][i] == x[i + 1];
        }
      }
      PackedSplits(x[1..]);
      assert forall k :: 0 <= k < |w| ==> w[k] !in {NUL};
      FieldsWordSep(w, NUL, {NUL});
      FieldsConcat(w + [NUL], Packed(x[1..]), {NUL});
    }
  }

  /** fskit_listxattr_len as the loop it is. */
  method ListxattrLen(x: X.XSet) returns (size: nat)
    ensures size == TotalLen(x)
  {
    size := 0;
    var i := 0;
    while i < |x|
      invariant i <= |x|
      invariant size + TotalLen(x[i..]) == TotalLen(x)
    {
      assert x[i..][1..] == x[i + 1..];
      size := size + |x[i].0| + 1;
      i := i + 1;
    }
    assert x[i..] == [];
  }

  /** The memcpy of one name and the NUL after it, at offset. */
  method PutName(list: array<char>, offset: nat, w: string)
    requires offset + |w| + 1 <= list.Length
    modifies list
    ensures list[..offset + |w| + 1] == old(list[..offset]) + w + [NUL]
    ensures forall k :: offset + |w| + 1 <= k < list.Length ==> list[k] == old(list[k])
  {
    var j := 0;
    while j < |w|
      invariant j <= |w|
      invariant list[..offset] == old(list[..offset])
      invariant forall k :: 0 <= k < j ==> list[offset + k] == w[k]
      invariant forall k :: offset + j <= k < list.Length ==> list[k] == old(list[k])
    {
      list[offset + j] := w[j];
      j := j + 1;
    }
    list[offset + |w|] := NUL;
    assert list[..offset + |w| + 1] == old(list[..offset]) + w + [NUL] by {
      forall k | 0 <= k < offset + |w| + 1
        ensures list[..offset + |w| + 1][k] == (old(list[..offset]) + w + [NUL])[k]
      {
        if k < offset {
          assert list[..offset][k] == list[k];
        }
      }
    }
  }

  /** One more name copied: the list grows by that name and its NUL, and what is left to copy shrinks by as much. */
  lemma PackedStep(x: X.XSet, i: nat)
    requires i < |x|
    ensures Packed(x[..i + 1]) == Packed(x[..i]) + x[i].0 + [NUL]
    ensures TotalLen(x[i..]) == |x[i].0| + 1 + TotalLen(x[i + 1..])
  {
    assert x[i..][0] == x[i] && x[i..][1..] == x[i + 1..];
    assert x[..i + 1] == x[..i] + [x[i]];
    PackedAppend(x[..i], [x[i]]);
    assert [x[i]][1..] == [];
  }

  /**
   * fskit_listxattr_copy_names: the names are written back to back from
   * the start of list, each ended by a NUL; nothing after them is touched.
   * The caller guarantees the room.
   */
  method CopyNames(x: X.XSet, list: array<char>)
    requires TotalLen(x) <= list.Length
    modifies list
    ensures list[..TotalLen(x)] == Packed(x)
    ensures forall k :: TotalLen(x) <= k < list.Length ==> list[k] == old(list[k])
  {
    var offset: nat := 0;
    var i := 0;
    assert x[0..] == x;
    while i < |x|
      invariant i <= |x|
      invariant offset + TotalLen(x[i..]) == TotalLen(x)
      invariant list[..offset] == Packed(x[..i])
      invariant forall k :: offset <= k < list.Length ==> list[k] == old(list[k])
    {
      var w := x[i].0;
      PackedStep(x, i);
      PutName(list, offset, w);
      offset := offset + |w| + 1;
      i := i + 1;
    }
    assert x[..i] == x && x[i..] == [];
  }

  /**
   * fskit_xattr_flistxattr, the built-in listing: a NULL list or a size of
   * 0 asks for the length only; a list too short for every name is
   * -ERANGE; otherwise the names are copied and the length is returned. Only
   * the copy writes.
   */
  method XattrFlistxattr(x: X.XSet, list: array?<char>, size: nat) returns (rc: int)
    requires list != null ==> size <= list.Length
    modifies list
    ensures list == null || size == 0 ==> rc == TotalLen(x)
    ensures list != null && size > 0 && TotalLen(x) > size ==> rc == -ERANGE
    ensures list != null && size > 0 && TotalLen(x) <= size ==>
              rc == TotalLen(x) && list[..TotalLen(x)] == Packed(x)
    ensures list != null && (size == 0 || TotalLen(x) > size) ==> list[..] == old(list[..])
    ensures list != null ==> forall k :: TotalLen(x) <= k < list.Length ==> list[k] == old(list[k])
  {
    var total := ListxattrLen(x);
    if list == null || size == 0 {
      return total;
    }
    if total > size {
      return -ERANGE;
    }
    CopyNames(x, list);
    rc := total;
  }

  /**
   * fskit_run_user_listxattr: only -EPERM from route_call means "no route"
   * and asks for the built-in listing; a route's callback status is
   * returned as it is, -ENOSYS (a route with no listxattr callback)
   * included.
   */
  function RunUserListxattr(hook: Route.Dispatch): (rc: int)
    ensures hook.NoRoute? ==> rc == 0
    ensures hook.Called? ==> rc == hook.cbrc
  {
    var callRc := Route.CallRc(hook);
    if callRc == -EPERM then 0
    else if callRc < 0 then callRc
    else hook.cbrc
  }

  /**
   * fskit_flistxattr: the route answers first. A positive status is the
   * route's own listing size, a negative one an error, and 0 falls back to
   * the built-in listing, whose status and writes are XattrFlistxattr's:
   * the packed names on success, the buffer untouched on -ERANGE and on a
   * length query, and nothing past the names touched in any case. What a
   * route writes into list is the route's affair and is not modelled.
   */
  method Flistxattr(x: X.XSet, list: array?<char>, size: nat, hook: Route.Dispatch) returns (rc: int)
    requires list != null ==> size <= list.Length
    modifies list
    ensures RunUserListxattr(hook) != 0 ==> rc == RunUserListxattr(hook)
    ensures RunUserListxattr(hook) == 0 && (list == null || size == 0) ==> rc == TotalLen(x)
    ensures RunUserListxattr(hook) == 0 && list != null && size > 0 ==>
              rc == (if TotalLen(x) > size then -ERANGE else TotalLen(x))
    ensures RunUserListxattr(hook) == 0 && list != null && size > 0 && TotalLen(x) <= size ==>
              list[..TotalLen(x)] == Packed(x)
    ensures RunUserListxattr(hook) == 0 && list != null && (size == 0 || TotalLen(x) > size) ==>
              list[..] == old(list[..])
    ensures RunUserListxattr(hook) == 0 && list != null ==>
              forall k :: TotalLen(x) <= k < list.Length ==> list[k] == old(list[k])
  {
    rc := RunUserListxattr(hook);
    if rc < 0 {
      return rc;
    }
    if rc > 0 {
      return rc;
    }
    rc := XattrFlistxattr(x, list, size);
  }

  /**
   * The status fskit_flistxattr returns, as a function of the route's
   * answer, the set, whether a buffer was given, and its size.
   */
  function FlistxattrRc(x: X.XSet, hasList: bool, size: nat, hook: Route.Dispatch): (rc: int)
    ensures RunUserListxattr(hook) != 0 ==> rc == RunUserListxattr(hook)
    ensures RunUserListxattr(hook) == 0 ==> rc == TotalLen(x) || rc == -ERANGE
    ensures RunUserListxattr(hook) == 0 && (!hasList || size == 0) ==> rc == TotalLen(x)
    ensures RunUserListxattr(hook) == 0 && rc == -ERANGE ==> hasList && 0 < size < TotalLen(x)
  {
    var r := RunUserListxattr(hook);
    if r != 0 then r
    else if !hasList || size == 0 || TotalLen(x) <= size then TotalLen(x)
    else -ERANGE
  }

  /**
   * A route with no listxattr callback does not fall back to the built-in
   * listing: the -ENOSYS of fskit_route_dispatch (route.c:498) comes back
   * as an error. The other run_user wrappers return it too, since it
   * arrives in cbrc; only a missing route (-EPERM) means "no route".
   */
  lemma NosysIsAnError(x: X.XSet, hasList: bool, size: nat)
    ensures FlistxattrRc(x, hasList, size, Route.Called(-ENOSYS)) == -ENOSYS
    ensures FlistxattrRc(x, hasList, size, Route.NoRoute) >= 0 || FlistxattrRc(x, hasList, size, Route.NoRoute) == -ERANGE
  {
  }

  /**
   * With no route, asking for the length and then listing into a buffer of
   * exactly that length succeeds, and the buffer decodes to the names.
   */
  lemma QueryThenList(x: X.XSet)
    requires CNames(x)
    ensures var n := FlistxattrRc(x, false, 0, Route.NoRoute);
      n == TotalLen(x) && n == |Packed(x)| &&
      (n > 0 ==> FlistxattrRc(x, true, n, Route.NoRoute) == n) &&
      Fields(Packed(x), {NUL}) == Names(x)
  {
    PackedLength(x);
    PackedSplits(x);
  }

  /**
   * fskit_listxattr: resolve the path; its error comes back as it is and the
   * buffer is untouched, otherwise the entry's names are listed as
   * fskit_flistxattr lists them, buffer contents included.
   */
  method Listxattr(core: Core, path: string, user: int, group: int, list: array?<char>, size: nat,
                   hook: Route.Dispatch) returns (rc: int)
    requires core.Valid()
    requires list != null ==> size <= list.Length
    modifies list
    ensures var o := ResolveSpec(core.ents, path, user, group, false);
      && (o.err != 0 ==> rc == o.err)
      && (o.err == 0 ==> o.ent.Some? && o.ent.value in core.ents &&
                         rc == FlistxattrRc(core.ents[o.ent.value].xattrs, list != null, size, hook))
    ensures var o := ResolveSpec(core.ents, path, user, group, false);
      o.err != 0 && list != null ==> list[..] == old(list[..])
    ensures var o := ResolveSpec(core.ents, path, user, group, false);
      o.err == 0 && o.ent.Some? && o.ent.value in core.ents && RunUserListxattr(hook) == 0 && list != null ==>
        var xs := core.ents[o.ent.value].xattrs;
        && (size > 0 && TotalLen(xs) <= size ==> list[..TotalLen(xs)] == Packed(xs))
        && (size == 0 || TotalLen(xs) > size ==> list[..] == old(list[..]))
        && (forall k :: TotalLen(xs) <= k < list.Length ==> list[k] == old(list[k]))
  {
    var o := ResolvePath(core, path, user, group, false);
    ResolveOutcome(core.ents, path, user, group, false);
    if o.ent.None? || o.err != 0 {
      return o.err;
    }
    rc := Flistxattr(core.ents[o.ent.value].xattrs, list, size, hook);
  }
}
