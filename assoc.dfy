// The sglib red-black trees keyed by name (entry sets and xattr sets),
// modelled by their in-order traversal: a sequence of (name, value)
// pairs, strictly increasing in strcmp order. An empty sequence is the
// NULL tree.
module Assoc {
  import opened Opt
  import opened Strs

  type Assoc<V> = seq<(string, V)>

  ghost predicate Sorted<V>(a: Assoc<V>)
  {
    forall i, j :: 0 <= i < j < |a| ==> StrLess(a[i].0, a[j].0)
  }

  /** Every key of a is strcmp-greater than x. */
  ghost predicate Above<V>(x: string, a: Assoc<V>)
  {
    forall i :: 0 <= i < |a| ==> StrLess(x, a[i].0)
  }

  /** The value stored under k, as an in-order search would find it. */
  function Find<V>(a: Assoc<V>, k: string): Option<V>
  {
    if |a| == 0 then None
    else if a[0].0 == k then Some(a[0].1)
    else Find(a[1..], k)
  }

  /** Add (k, v) at its place in the order; a pair already under k is rebound. */
  function Insert<V>(a: Assoc<V>, k: string, v: V): Assoc<V>
  {
    if |a| == 0 then [(k, v)]
    else if a[0].0 == k then [(k, v)] + a[1..]
    else if StrLess(k, a[0].0) then [(k, v)] + a
    else [a[0]] + Insert(a[1..], k, v)
  }

  /** Delete the pair under k, if any. */
  function Remove<V>(a: Assoc<V>, k: string): Assoc<V>
  {
    if |a| == 0 then []
    else if a[0].0 == k then a[1..]
    else [a[0]] + Remove(a[1..], k)
  }

  lemma SortedCons<V>(p: (string, V), a: Assoc<V>)
    requires Sorted(a) && Above(p.0, a)
    ensures Sorted([p] + a)
  {
    var b := [p] + a;
    forall i, j | 0 <= i < j < |b| ensures StrLess(b[i].0, b[j].0) {
      assert b[j] == a[j - 1];
      if i > 0 {
        assert b[i] == a[i - 1];
      }
    }
  }

  lemma SortedSplit<V>(a: Assoc<V>)
    requires Sorted(a) && |a| > 0
    ensures Sorted(a[1..]) && Above(a[0].0, a[1..])
  {
    forall i | 0 <= i < |a[1..]| ensures StrLess(a[0].0, a[1..][i].0) {
      assert a[1..][i] == a[i + 1];
    }
  }

  lemma AboveHead<V>(x: string, a: Assoc<V>)
    requires Sorted(a) && |a| > 0 && StrLess(x, a[0].0)
    ensures Above(x, a)
  {
    forall i | 0 < i < |a| ensures StrLess(x, a[i].0) {
      StrLessTransitive(x, a[0].0, a[i].0);
    }
  }

  lemma {:induction false} AboveFindNone<V>(x: string, a: Assoc<V>)
    requires Above(x, a)
    ensures Find(a, x) == None
  {
    if |a| > 0 {
      if a[0].0 == x {
        StrLessIrreflexive(x);
      }
      AboveFindNone(x, a[1..]);
    }
  }

  lemma {:induction false} AboveInsert<V>(x: string, a: Assoc<V>, k: string, v: V)
    requires Above(x, a) && StrLess(x, k)
    ensures Above(x, Insert(a, k, v))
  {
    if |a| > 0 && a[0].0 != k && !StrLess(k, a[0].0) {
      AboveInsert(x, a[1..], k, v);
      var b := Insert(a, k, v);
      forall i | 0 <= i < |b| ensures StrLess(x, b[i].0) {
        if i > 0 {
          assert b[i] == Insert(a[1..], k, v)[i - 1];
        }
      }
    }
  }

  lemma {:induction false} AboveRemove<V>(x: string, a: Assoc<V>, k: string)
    requires Above(x, a)
    ensures Above(x, Remove(a, k))
  {
    if |a| > 0 && a[0].0 != k {
      AboveRemove(x, a[1..], k);
      var b := Remove(a, k);
      forall i | 0 <= i < |b| ensures StrLess(x, b[i].0) {
        if i > 0 {
          assert b[i] == Remove(a[1..], k)[i - 1];
        }
      }
    }
  }

  /** The insertion keeps the sequence strictly sorted. */
  lemma {:induction false} InsertSorted<V>(a: Assoc<V>, k: string, v: V)
    requires Sorted(a)
    ensures Sorted(Insert(a, k, v))
  {
    if |a| == 0 {
    } else if a[0].0 == k {
      SortedSplit(a);
      SortedCons((k, v), a[1..]);
    } else if StrLess(k, a[0].0) {
      AboveHead(k, a);
      SortedCons((k, v), a);
    } else {
      StrLessTotal(k, a[0].0);
      SortedSplit(a);
      InsertSorted(a[1..], k, v);
      AboveInsert(a[0].0, a[1..], k, v);
      SortedCons(a[0], Insert(a[1..], k, v));
    }
  }

  /** The removal keeps the sequence strictly sorted. */
  lemma {:induction false} RemoveSorted<V>(a: Assoc<V>, k: string)
    requires Sorted(a)
    ensures Sorted(Remove(a, k))
  {
    if |a| > 0 {
      SortedSplit(a);
      if a[0].0 != k {
        RemoveSorted(a[1..], k);
        AboveRemove(a[0].0, a[1..], k);
        SortedCons(a[0], Remove(a[1..], k));
      }
    }
  }

  /** After Insert(a, k, v), k maps to v and every other key keeps its value. */
  lemma {:induction false} FindInsert<V>(a: Assoc<V>, k: string, v: V, x: string)
    ensures Find(Insert(a, k, v), x) == if x == k then Some(v) else Find(a, x)
  {
    if |a| > 0 && a[0].0 != k && !StrLess(k, a[0].0) {
      FindInsert(a[1..], k, v, x);
    }
  }

  /** After Remove(a, k), k is absent and every other key keeps its value. */
  lemma {:induction false} FindRemove<V>(a: Assoc<V>, k: string, x: string)
    requires Sorted(a)
    ensures Find(Remove(a, k), x) == if x == k then None else Find(a, x)
  {
    if |a| > 0 {
      SortedSplit(a);
      if a[0].0 == k {
        AboveFindNone(k, a[1..]);
      } else {
        FindRemove(a[1..], k, x);
      }
    }
  }

  /** Insert grows the sequence by one exactly when k was absent. */
  lemma {:induction false} InsertLength<V>(a: Assoc<V>, k: string, v: V)
    requires Sorted(a)
    ensures |Insert(a, k, v)| == if Find(a, k).Some? then |a| else |a| + 1
  {
    if |a| > 0 && a[0].0 != k {
      if StrLess(k, a[0].0) {
        AboveHead(k, a);
        AboveFindNone(k, a);
      } else {
        SortedSplit(a);
        InsertLength(a[1..], k, v);
      }
    }
  }

  /** Remove shrinks the sequence by one exactly when k was present. */
  lemma {:induction false} RemoveLength<V>(a: Assoc<V>, k: string)
    ensures |Remove(a, k)| == if Find(a, k).Some? then |a| - 1 else |a|
  {
    if |a| > 0 && a[0].0 != k {
      RemoveLength(a[1..], k);
    }
  }

  /** Removing an absent key changes nothing. */
  lemma {:induction false} RemoveAbsent<V>(a: Assoc<V>, k: string)
    requires Find(a, k) == None
    ensures Remove(a, k) == a
  {
    if |a| > 0 {
      RemoveAbsent(a[1..], k);
    }
  }

  /** In a sorted sequence, the key at position i finds the value at position i. */
  lemma {:induction false} FindAt<V>(a: Assoc<V>, i: nat)
    requires Sorted(a) && i < |a|
    ensures Find(a, a[i].0) == Some(a[i].1)
  {
    if i > 0 {
      if a[0].0 == a[i].0 {
        StrLessIrreflexive(a[0].0);
      }
      SortedSplit(a);
      FindAt(a[1..], i - 1);
    }
  }

  /** A found value sits at some position under its key. */
  lemma {:induction false} FindSome<V>(a: Assoc<V>, k: string)
    requires Find(a, k).Some?
    ensures exists i :: 0 <= i < |a| && a[i] == (k, Find(a, k).value)
  {
    if a[0].0 != k {
      FindSome(a[1..], k);
      var i :| 0 <= i < |a[1..]| && a[1..][i] == (k, Find(a, k).value);
      assert a[i + 1] == a[1..][i];
    }
  }

  /** Every pair of Insert(a, k, v) is the new pair or was in a. */
  lemma {:induction false} InsertMembers<V>(a: Assoc<V>, k: string, v: V)
    ensures forall p :: p in Insert(a, k, v) ==> p == (k, v) || p in a
  {
    if |a| > 0 && a[0].0 != k && !StrLess(k, a[0].0) {
      InsertMembers(a[1..], k, v);
      assert a == [a[0]] + a[1..];
    } else if |a| > 0 {
      assert a == [a[0]] + a[1..];
    }
  }

  /** Every pair of Remove(a, k) was in a. */
  lemma {:induction false} RemoveMembers<V>(a: Assoc<V>, k: string)
    ensures forall p :: p in Remove(a, k) ==> p in a
  {
    if |a| > 0 {
      RemoveMembers(a[1..], k);
      assert a == [a[0]] + a[1..];
    }
  }

  /** Two sorted sequences that find the same value under every key are equal. */
  lemma {:induction false} Extensionality<V>(a: Assoc<V>, b: Assoc<V>)
    requires Sorted(a) && Sorted(b)
    requires forall k :: Find(a, k) == Find(b, k)
    ensures a == b
  {
    if |a| == 0 || |b| == 0 {
      if |a| > 0 {
        FindAt(a, 0);
      } else if |b| > 0 {
        FindAt(b, 0);
      }
    } else {
      var ka, kb := a[0].0, b[0].0;
      SortedSplit(a);
      SortedSplit(b);
      if ka != kb {
        StrLessTotal(ka, kb);
        if StrLess(ka, kb) {
          AboveHead(ka, b);
          AboveFindNone(ka, b);
        } else {
          AboveHead(kb, a);
          AboveFindNone(kb, a);
        }
      }
      assert Find(a, ka) == Some(a[0].1) && Find(b, ka) == Some(b[0].1);
      forall k ensures Find(a[1..], k) == Find(b[1..], k) {
        if k == ka {
          AboveFindNone(ka, a[1..]);
          AboveFindNone(ka, b[1..]);
        } else {
          assert Find(a, k) == Find(a[1..], k) && Find(b, k) == Find(b[1..], k);
        }
      }
      Extensionality(a[1..], b[1..]);
      assert a == [a[0]] + a[1..] && b == [b[0]] + b[1..];
    }
  }
}
