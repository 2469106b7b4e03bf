/**
 Sequences used as lists of keys: the elements of a list, lists without
 repetitions, and a list that enumerates a set in some order (what the
 `strset` library's `New` and `List` do for the key group).
 */
module Seqs {

  /** The set of elements of a list: `strset.New(keys...)`. */
  function Elems<T>(l: seq<T>): set<T>
  {
    set x | x in l
  }

  /** No element occurs twice. */
  predicate Distinct<T(==)>(l: seq<T>)
  {
    forall i, j :: 0 <= i < j < |l| ==> l[i] != l[j]
  }

  /** `l` lists every element of `s` exactly once, in some order. */
  predicate Enumerates<T(==)>(l: seq<T>, s: set<T>)
  {
    Distinct(l) && Elems(l) == s
  }

  /** An enumeration of a set is as long as the set is large. */
  lemma {:induction false} EnumerationSize<T>(l: seq<T>, s: set<T>)
    requires Enumerates(l, s)
    ensures |l| == |s|
  {
    if l != [] {
      var last := l[|l| - 1];
      var init := l[..|l| - 1];
      assert l == init + [last];
      assert Elems(init) == s - {last} by {
        forall x | x in s - {last} ensures x in Elems(init) {
          var i :| 0 <= i < |l| && l[i] == x;
          assert i < |l| - 1;
        }
      }
      EnumerationSize(init, s - {last});
    }
  }

  /** The only enumeration of the empty set is the empty list. */
  lemma EnumerationOfEmpty<T>(l: seq<T>)
    requires Enumerates(l, {})
    ensures l == []
  {
    EnumerationSize(l, {});
  }

  /** The only enumeration of a singleton is the one-element list. */
  lemma EnumerationOfSingleton<T>(l: seq<T>, x: T)
    requires Enumerates(l, {x})
    ensures l == [x]
  {
    EnumerationSize(l, {x});
    assert l[0] in Elems(l);
  }

  /** A subset is no larger than its superset. */
  lemma {:induction false} SubsetSize<T>(a: set<T>, b: set<T>)
    requires a <= b
    ensures |a| <= |b|
    decreases b
  {
    if a != {} {
      var x :| x in a;
      SubsetSize(a - {x}, b - {x});
    }
  }

  /** The elements of a concatenation are those of both parts. */
  lemma ElemsConcat<T>(l1: seq<T>, l2: seq<T>)
    ensures Elems(l1 + l2) == Elems(l1) + Elems(l2)
  {
    var l := l1 + l2;
    forall x | x in Elems(l) ensures x in Elems(l1) + Elems(l2) {
      var i :| 0 <= i < |l| && l[i] == x;
      if i >= |l1| { assert l2[i - |l1|] == x; }
    }
    forall x | x in Elems(l2) ensures x in Elems(l) {
      var i :| 0 <= i < |l2| && l2[i] == x;
      assert l[|l1| + i] == x;
    }
  }

  /** The elements of a non-empty list are those before its last one and the last one. */
  lemma ElemsSnoc<T>(l: seq<T>)
    requires l != []
    ensures Elems(l) == Elems(l[..|l| - 1]) + {l[|l| - 1]}
  {
    assert l == l[..|l| - 1] + [l[|l| - 1]];
    ElemsConcat(l[..|l| - 1], [l[|l| - 1]]);
    assert Elems([l[|l| - 1]]) == {l[|l| - 1]};
  }

  /** A prefix of a list without repetitions has none either, and its last
      element before the cut does not occur in it. */
  lemma DistinctPrefix<T>(l: seq<T>, n: nat)
    requires Distinct(l) && n < |l|
    ensures Distinct(l[..n]) && l[n] !in Elems(l[..n])
  {
  }

  /** `strset.List()`: the elements of a set as a list, in an unspecified order. */
  method List<T(==)>(s: set<T>) returns (l: seq<T>)
    ensures Enumerates(l, s)
  {
    l := [];
    var rest := s;
    while rest != {}
      invariant Distinct(l)
      invariant Elems(l) + rest == s
      invariant Elems(l) !! rest
      decreases rest
    {
      var x :| x in rest;
      l := l + [x];
      rest := rest - {x};
    }
  }
}
