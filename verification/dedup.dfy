/** `Array.from(new Set(xs))`: the distinct elements of a list, in the order
    in which a JavaScript `Set` first saw them. */
module Dedup {

  predicate NoDuplicates<T(==)>(s: seq<T>)
  {
    forall i, j :: 0 <= i < j < |s| ==> s[i] != s[j]
  }

  /** Position of the first occurrence of `x` in `s` (`indexOf`), or `|s|` when absent. */
  function FirstIndex<T(==)>(s: seq<T>, x: T): (k: nat)
    ensures k <= |s| && x !in s[..k]
    ensures k < |s| ==> s[k] == x
  {
    if s == [] then 0
    else
      var p := s[..|s| - 1];
      if x in p then FirstIndex(p, x) else if s[|s| - 1] == x then |s| - 1 else |s|
  }

  /** Inserting the elements one by one into a set that remembers insertion order. */
  function Distinct<T(==)>(s: seq<T>): (r: seq<T>)
    ensures NoDuplicates(r)
    ensures |r| <= |s|
  {
    if s == [] then []
    else
      var d := Distinct(s[..|s| - 1]);
      if s[|s| - 1] in d then d else d + [s[|s| - 1]]
  }

  /** Every element of the input is kept, and nothing else appears. */
  lemma {:induction false} DistinctMembers<T>(s: seq<T>)
    ensures forall x :: x in Distinct(s) ==> x in s
    ensures forall x :: x in s ==> x in Distinct(s)
  {
    if s != [] {
      var p := s[..|s| - 1];
      DistinctMembers(p);
      assert s == p + [s[|s| - 1]];
    }
  }

  /** The distinct elements come out in the order of their first occurrences. */
  lemma {:induction false} DistinctFirstSeenOrder<T>(s: seq<T>, i: nat, j: nat)
    requires i < j < |Distinct(s)|
    ensures FirstIndex(s, Distinct(s)[i]) < FirstIndex(s, Distinct(s)[j]) < |s|
  {
    var p := s[..|s| - 1];
    var d := Distinct(p);
    var r := Distinct(s);
    DistinctMembers(p);
    if j < |d| {
      assert r[i] == d[i] && r[j] == d[j];
      DistinctFirstSeenOrder(p, i, j);
    } else {
      assert r[j] == s[|s| - 1] && r[j] !in p;
      assert r[i] == d[i] && d[i] in d;
      assert FirstIndex(p, r[i]) < |p| by { assert p[..|p|] == p; }
    }
  }

  /** A list has at most one distinct element exactly when all its entries equal the first. */
  lemma DistinctAtMostOneIffAllEqual<T>(s: seq<T>)
    ensures |Distinct(s)| <= 1 <==> forall i :: 0 <= i < |s| ==> s[i] == s[0]
  {
    var r := Distinct(s);
    DistinctMembers(s);
    if |r| > 1 {
      var a, b := r[0], r[1];
      assert a != b;
      assert a in r && b in r;
      assert a in s && b in s;
      var i :| 0 <= i < |s| && s[i] == a;
      var j :| 0 <= j < |s| && s[j] == b;
      assert s[i] != s[0] || s[j] != s[0];
    }
    if exists i :: 0 <= i < |s| && s[i] != s[0] {
      var i :| 0 <= i < |s| && s[i] != s[0];
      assert s[i] in r && s[0] in r;
    }
  }

  /** Adding one element: the `Set.add` step. */
  lemma DistinctSnoc<T>(s: seq<T>, x: T)
    ensures Distinct(s + [x]) == if x in s then Distinct(s) else Distinct(s) + [x]
    ensures Distinct(s + [x]) == if x in Distinct(s) then Distinct(s) else Distinct(s) + [x]
  {
    DistinctMembers(s);
    assert (s + [x])[..|s + [x]| - 1] == s;
  }

  /** A list has at most as many different elements as entries, and exactly
      as many when no element repeats. */
  lemma {:induction false} ElementCount<T>(s: seq<T>)
    ensures |set x | x in s| <= |s|
    ensures |set x | x in s| == |s| <==> NoDuplicates(s)
  {
    if s != [] {
      var p, last := s[..|s| - 1], s[|s| - 1];
      ElementCount(p);
      assert (set x | x in s) == (set x | x in p) + {last} by {
        assert s == p + [last];
      }
      if last in p {
        var i :| 0 <= i < |p| && p[i] == last;
        assert s[i] == s[|s| - 1];
      } else {
        assert NoDuplicates(s) ==> NoDuplicates(p) by {
          if NoDuplicates(s) {
            forall i, j | 0 <= i < j < |p| ensures p[i] != p[j] {
              assert p[i] == s[i] && p[j] == s[j];
            }
          }
        }
        assert NoDuplicates(p) ==> NoDuplicates(s) by {
          if NoDuplicates(p) {
            forall i, j | 0 <= i < j < |s| ensures s[i] != s[j] {
              assert s[i] == p[i] && p[i] in p;
              if j < |p| { assert s[j] == p[j]; }
            }
          }
        }
      }
    }
  }
}
