// A directory's child index (fskit_entry_set, libfskit/entry.c:113-301):
// names in strcmp order, each bound to an entry. Entries are referred to
// by Ref, the model of a struct fskit_entry pointer.
module EntrySet {
  import opened Opt
  import opened Strs
  import A = Assoc

  type Ref = nat
  type Dir = A.Assoc<Ref>

  ghost predicate Valid(d: Dir) { A.Sorted(d) }

  function Find(d: Dir, name: string): Option<Ref> { A.Find(d, name) }

  /** A new child set: "." bound to the directory itself, ".." to its parent. */
  function SetNew(node: Ref, parent: Ref): (d: Dir)
    ensures Valid(d) && Count(d) == 2
    ensures Find(d, ".") == Some(node) && Find(d, "..") == Some(parent)
    ensures forall n :: n != "." && n != ".." ==> Find(d, n) == None
  {
    var d0: Dir := [(".", node)];
    assert StrLess(".", "..");
    var d := A.Insert(d0, "..", parent);
    A.InsertSorted(d0, "..", parent);
    A.InsertLength(d0, "..", parent);
    forall n ensures Find(d, n) == if n == ".." then Some(parent) else Find(d0, n) {
      A.FindInsert(d0, "..", parent, n);
    }
    forall n | n != "." ensures Find(d0, n) == None {
      assert d0[0].0 != n && d0[1..] == [];
      assert A.Find(d0[1..], n) == None;
      assert A.Find(d0, n) == A.Find(d0[1..], n);
    }
    d
  }

  /** Bind name to child (the sglib add of fskit_entry_set_insert). */
  function Insert(d: Dir, name: string, child: Ref): (r: Dir)
    requires Valid(d)
    ensures Valid(r)
    ensures Find(r, name) == Some(child)
    ensures forall n :: n != name ==> Find(r, n) == Find(d, n)
    ensures Count(r) == if Find(d, name).Some? then Count(d) else Count(d) + 1
  {
    A.InsertSorted(d, name, child);
    A.InsertLength(d, name, child);
    forall n ensures Find(A.Insert(d, name, child), n) == if n == name then Some(child) else Find(d, n) {
      A.FindInsert(d, name, child, n);
    }
    A.Insert(d, name, child)
  }

  /**
   * fskit_entry_set_remove: "." and ".." are never removed (false, no
   * change); otherwise the name is dropped and the result says whether it
   * was present.
   */
  function Remove(d: Dir, name: string): (r: (bool, Dir))
    requires Valid(d)
    ensures Valid(r.1)
    ensures (name == "." || name == "..") ==> r == (false, d)
  {
    if name == "." || name == ".." then (false, d)
    else
      A.RemoveSorted(d, name);
      (Find(d, name).Some?, A.Remove(d, name))
  }

  /** fskit_entry_set_replace: rebind an existing name; false and no change when absent. */
  function Replace(d: Dir, name: string, replacement: Ref): (r: (bool, Dir))
    requires Valid(d)
    ensures Valid(r.1)
  {
    if Find(d, name).Some? then (true, Insert(d, name, replacement)) else (false, d)
  }

  /** fskit_entry_set_count: the number of slots, "." and ".." included. */
  function Count(d: Dir): nat { |d| }

  /** Remove drops exactly the named binding and reports its presence. */
  lemma RemoveSpec(d: Dir, name: string)
    requires Valid(d) && name != "." && name != ".."
    ensures Remove(d, name).0 <==> Find(d, name).Some?
    ensures Find(Remove(d, name).1, name) == None
    ensures forall n :: n != name ==> Find(Remove(d, name).1, n) == Find(d, n)
    ensures Count(Remove(d, name).1) == if Find(d, name).Some? then Count(d) - 1 else Count(d)
  {
    forall n ensures Find(A.Remove(d, name), n) == if n == name then None else Find(d, n) {
      A.FindRemove(d, name, n);
    }
    A.RemoveLength(d, name);
  }

  /** Any removal leaves the other names alone and drops the named one unless it is "." or "..". */
  lemma RemoveFind(d: Dir, name: string)
    requires Valid(d)
    ensures forall n :: n != name ==> Find(Remove(d, name).1, n) == Find(d, n)
    ensures name != "." && name != ".." ==> Find(Remove(d, name).1, name) == None
  {
    if name != "." && name != ".." {
      RemoveSpec(d, name);
    }
  }

  /** "." and ".." survive every removal. */
  lemma RemoveKeepsDots(d: Dir, name: string)
    requires Valid(d)
    ensures Find(Remove(d, name).1, ".") == Find(d, ".")
    ensures Find(Remove(d, name).1, "..") == Find(d, "..")
  {
    if name != "." && name != ".." {
      RemoveSpec(d, name);
    }
  }

  /** Replace changes only the target of an existing name. */
  lemma ReplaceSpec(d: Dir, name: string, replacement: Ref)
    requires Valid(d)
    ensures Replace(d, name, replacement).0 <==> Find(d, name).Some?
    ensures Find(d, name).Some? ==> Find(Replace(d, name, replacement).1, name) == Some(replacement)
    ensures Find(d, name).None? ==> Replace(d, name, replacement).1 == d
    ensures forall n :: n != name ==> Find(Replace(d, name, replacement).1, n) == Find(d, n)
    ensures Count(Replace(d, name, replacement).1) == Count(d)
  {
  }
}
