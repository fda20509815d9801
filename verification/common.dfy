/**
 * Small building blocks shared by the sampler widget and the summary-table
 * model: an Option type, the order-preserving filter that JavaScript's
 * Array.prototype.filter performs, and the least element of a finite set of
 * integers (the first key a `for...in` loop visits in an object whose keys are
 * integer ids).
 */
module Common {

  datatype Option<+T> = None | Some(value: T)

  /** The elements of `s` that satisfy `keep`, in their original order. */
  function Filter<T>(s: seq<T>, keep: T -> bool): (r: seq<T>)
    ensures |r| <= |s|
    ensures forall i :: 0 <= i < |r| ==> r[i] in s && keep(r[i])
    ensures forall i :: 0 <= i < |s| && keep(s[i]) ==> s[i] in r
  {
    if s == [] then []
    else Filter(s[..|s| - 1], keep) + (if keep(s[|s| - 1]) then [s[|s| - 1]] else [])
  }

  /** Filtering a concatenation filters each part and keeps their order. */
  lemma {:induction false} FilterConcat<T>(a: seq<T>, b: seq<T>, keep: T -> bool)
    ensures Filter(a + b, keep) == Filter(a, keep) + Filter(b, keep)
  {
    if b == [] {
      assert a + b == a;
    } else {
      var b' := b[..|b| - 1];
      assert (a + b)[..|a + b| - 1] == a + b';
      assert (a + b)[|a + b| - 1] == b[|b| - 1];
      FilterConcat(a, b', keep);
    }
  }

  /** A filter whose predicate holds everywhere changes nothing. */
  lemma {:induction false} FilterKeepsAll<T>(s: seq<T>, keep: T -> bool)
    requires forall i :: 0 <= i < |s| ==> keep(s[i])
    ensures Filter(s, keep) == s
  {
    if s != [] {
      FilterKeepsAll(s[..|s| - 1], keep);
    }
  }

  /** Filtering twice with the same predicate is filtering once. */
  lemma {:induction false} FilterIdempotent<T>(s: seq<T>, keep: T -> bool)
    ensures Filter(Filter(s, keep), keep) == Filter(s, keep)
  {
    var r := Filter(s, keep);
    forall i | 0 <= i < |r| ensures keep(r[i]) {
      assert r[i] in r;
    }
    FilterKeepsAll(r, keep);
  }

  /** A finite set of integers that holds `w` has a least element. */
  lemma {:induction false} LeastExists(s: set<int>, w: int)
    requires w in s
    ensures exists m :: m in s && forall x :: x in s ==> m <= x
    decreases |s|
  {
    var rest := s - {w};
    if y :| y in rest {
      LeastExists(rest, y);
      var m :| m in rest && forall x :: x in rest ==> m <= x;
      var least := if w < m then w else m;
      forall x | x in s
        ensures least <= x
      {
        if x != w {
          assert x in rest;
        }
      }
    } else {
      assert forall x :: x in s ==> x == w || x in rest;
    }
  }

  /** The least element of a finite set of integers that holds `w`. */
  function Least(s: set<int>, w: int): (m: int)
    requires w in s
    ensures m in s
    ensures forall x :: x in s ==> m <= x
  {
    LeastExists(s, w);
    var m :| m in s && forall x :: x in s ==> m <= x;
    m
  }
}
