// C strings without their NUL terminator, and the strcmp order used by
// every ordered set in fskit (entry sets, xattr sets).
module Strs {
  /** The C string terminator. */
  const NUL: char := '\0'

  /** strcmp(a, b) < 0: character-code lexicographic order, a proper prefix first. */
  predicate StrLess(a: string, b: string)
    decreases |a|
  {
    if |b| == 0 then false
    else if |a| == 0 then true
    else if a[0] != b[0] then a[0] < b[0]
    else StrLess(a[1..], b[1..])
  }

  lemma {:induction false} StrLessIrreflexive(a: string)
    ensures !StrLess(a, a)
  {
    if |a| > 0 {
      StrLessIrreflexive(a[1..]);
    }
  }

  lemma {:induction false} StrLessTransitive(a: string, b: string, c: string)
    requires StrLess(a, b) && StrLess(b, c)
    ensures StrLess(a, c)
  {
    if |a| > 0 && a[0] == b[0] && b[0] == c[0] {
      StrLessTransitive(a[1..], b[1..], c[1..]);
    }
  }

  lemma {:induction false} StrLessTotal(a: string, b: string)
    requires a != b
    ensures StrLess(a, b) || StrLess(b, a)
  {
    if |a| > 0 && |b| > 0 && a[0] == b[0] {
      assert a == [a[0]] + a[1..] && b == [b[0]] + b[1..];
      StrLessTotal(a[1..], b[1..]);
    }
  }

  lemma StrLessAsymmetric(a: string, b: string)
    requires StrLess(a, b)
    ensures !StrLess(b, a)
  {
    if StrLess(b, a) {
      StrLessTransitive(a, b, a);
      StrLessIrreflexive(a);
    }
  }

  /** Length of the leading run of characters of s outside seps. */
  function RunLen(s: string, seps: set<char>): (n: nat)
    ensures n <= |s|
  {
    if |s| == 0 || s[0] in seps then 0 else 1 + RunLen(s[1..], seps)
  }

  lemma {:induction false} RunLenStops(s: string, seps: set<char>)
    ensures forall k :: 0 <= k < RunLen(s, seps) ==> s[k] !in seps
    ensures RunLen(s, seps) == |s| || s[RunLen(s, seps)] in seps
  {
    if |s| > 0 && s[0] !in seps {
      RunLenStops(s[1..], seps);
    }
  }

  /**
   * The maximal runs of characters outside seps, in order: what a strtok
   * loop over s with delimiter set seps produces.
   */
  function Fields(s: string, seps: set<char>): seq<string>
    decreases |s|
  {
    if |s| == 0 then []
    else if s[0] in seps then Fields(s[1..], seps)
    else
      var n := RunLen(s, seps);
      [s[..n]] + Fields(s[n..], seps)
  }

  lemma {:induction false} FieldsShape(s: string, seps: set<char>)
    ensures forall f :: f in Fields(s, seps) ==> |f| > 0
    ensures forall f, c :: f in Fields(s, seps) && c in f ==> c !in seps
    decreases |s|
  {
    if |s| == 0 {
    } else if s[0] in seps {
      FieldsShape(s[1..], seps);
    } else {
      var n := RunLen(s, seps);
      RunLenStops(s, seps);
      FieldsShape(s[n..], seps);
      forall c | c in s[..n] ensures c !in seps {
        var k :| 0 <= k < n && s[..n][k] == c;
      }
    }
  }

  lemma {:induction false} FieldsNone(s: string, seps: set<char>)
    requires forall k :: 0 <= k < |s| ==> s[k] in seps
    ensures Fields(s, seps) == []
    decreases |s|
  {
    if |s| > 0 {
      FieldsNone(s[1..], seps);
    }
  }

  /** A run of m characters outside seps, ended by a separator or the end, is the leading run. */
  lemma {:induction false} RunLenIs(t: string, seps: set<char>, m: nat)
    requires m <= |t|
    requires forall k :: 0 <= k < m ==> t[k] !in seps
    requires m == |t| || t[m] in seps
    ensures RunLen(t, seps) == m
  {
    if m > 0 {
      RunLenIs(t[1..], seps, m - 1);
    }
  }

  /**
   * Splitting at a separator: when a ends with one, or b starts with one,
   * the fields of a + b are those of a followed by those of b.
   */
  lemma {:induction false} FieldsConcat(a: string, b: string, seps: set<char>)
    requires |a| == 0 || a[|a| - 1] in seps || |b| == 0 || b[0] in seps
    ensures Fields(a + b, seps) == Fields(a, seps) + Fields(b, seps)
    decreases |a|
  {
    if |a| == 0 {
      assert a + b == b;
    } else if a[0] in seps {
      assert (a + b)[0] == a[0];
      assert (a + b)[1..] == a[1..] + b;
      assert Fields(a + b, seps) == Fields(a[1..] + b, seps);
      FieldsConcat(a[1..], b, seps);
    } else {
      var m := RunLen(a, seps);
      FieldsLeadingRun(a, b, seps);
      FieldsConcat(a[m..], b, seps);
    }
  }

  /** The leading run of a, ended inside a or by the separator that starts b, is the first field of a + b. */
  lemma FieldsLeadingRun(a: string, b: string, seps: set<char>)
    requires |a| > 0 && a[0] !in seps
    requires a[|a| - 1] in seps || |b| == 0 || b[0] in seps
    ensures RunLen(a, seps) <= |a|
    ensures Fields(a + b, seps) == [a[..RunLen(a, seps)]] + Fields(a[RunLen(a, seps)..] + b, seps)
    ensures Fields(a, seps) == [a[..RunLen(a, seps)]] + Fields(a[RunLen(a, seps)..], seps)
  {
    var m := RunLen(a, seps);
    RunLenStops(a, seps);
    ConcatSlices(a, b, m);
    assert m == |a + b| || (a + b)[m] in seps;
    RunLenIs(a + b, seps, m);
    assert (a + b)[0] == a[0];
  }

  /** Cutting a + b inside a. */
  lemma ConcatSlices(a: string, b: string, m: nat)
    requires m <= |a|
    ensures forall k :: 0 <= k < m ==> (a + b)[k] == a[k]
    ensures (a + b)[..m] == a[..m] && (a + b)[m..] == a[m..] + b
  {
  }

  /** A non-empty run of characters outside seps is a single field. */
  lemma FieldsWord(w: string, seps: set<char>)
    requires 0 < |w| && forall k :: 0 <= k < |w| ==> w[k] !in seps
    ensures Fields(w, seps) == [w]
  {
    RunLenIs(w, seps, |w|);
    assert w[..|w|] == w && w[|w|..] == [];
  }

  /** The same run ended by one separator is still that single field. */
  lemma FieldsWordSep(w: string, c: char, seps: set<char>)
    requires 0 < |w| && (forall k :: 0 <= k < |w| ==> w[k] !in seps) && c in seps
    ensures Fields(w + [c], seps) == [w]
  {
    FieldsConcat(w, [c], seps);
    FieldsWord(w, seps);
    assert Fields([c], seps) == [] by {
      assert [c][1..] == [];
    }
  }
}
