/** Facts about duplicate-free sequences: the ordered sets of the model. */
module Seqs {

  ghost predicate Distinct<T>(s: seq<T>) {
    forall i, j :: 0 <= i < j < |s| ==> s[i] != s[j]
  }

  ghost function Elems<T>(s: seq<T>): set<T> {
    set x | x in s
  }

  /** Dropping the last element keeps a sequence duplicate-free, and that element occurs nowhere before. */
  lemma DistinctInit<T>(s: seq<T>)
    requires Distinct(s) && s != []
    ensures Distinct(s[..|s| - 1]) && s[|s| - 1] !in s[..|s| - 1]
  {
    var t := s[..|s| - 1];
    forall i, j | 0 <= i < j < |t|
      ensures t[i] != t[j]
    {
      assert t[i] == s[i] && t[j] == s[j];
    }
    forall k | 0 <= k < |t|
      ensures t[k] != s[|s| - 1]
    {
      assert t[k] == s[k];
    }
  }

  /** A duplicate-free sequence has as many distinct elements as it is long. */
  lemma {:induction false} DistinctCard<T>(s: seq<T>)
    requires Distinct(s)
    ensures |Elems(s)| == |s|
  {
    if s != [] {
      var t := s[..|s| - 1];
      assert Distinct(t);
      DistinctCard(t);
      assert s == t + [s[|s| - 1]];
      assert Elems(s) == Elems(t) + {s[|s| - 1]};
      assert s[|s| - 1] !in Elems(t);
    }
  }

  /** A duplicate-free sequence drawn from S is no longer than S is large. */
  lemma DistinctWithin<T>(s: seq<T>, S: set<T>)
    requires Distinct(s)
    requires forall k :: 0 <= k < |s| ==> s[k] in S
    ensures |s| <= |S|
  {
    DistinctCard(s);
    SubsetCard(Elems(s), S);
  }

  lemma {:induction false} SubsetCard<T>(A: set<T>, B: set<T>)
    requires A <= B
    ensures |A| <= |B|
    decreases |A|
  {
    if A != {} {
      var x :| x in A;
      SubsetCard(A - {x}, B - {x});
    }
  }

  /** Pigeonhole: a sequence longer than the set it is drawn from repeats an element. */
  lemma Pigeonhole<T>(s: seq<T>, S: set<T>)
    requires forall k :: 0 <= k < |s| ==> s[k] in S
    requires |s| > |S|
    ensures exists i, j :: 0 <= i < j < |s| && s[i] == s[j]
  {
    if Distinct(s) {
      DistinctWithin(s, S);
    }
  }

  /** The multiset of a duplicate-free sequence is the set of its elements. */
  lemma {:induction false} DistinctMultiset<T>(s: seq<T>)
    requires Distinct(s)
    ensures multiset(s) == multiset(Elems(s))
  {
    if s != [] {
      var t := s[..|s| - 1];
      var x := s[|s| - 1];
      assert Distinct(t);
      DistinctMultiset(t);
      assert s == t + [x];
      assert Elems(s) == Elems(t) + {x};
      assert x !in Elems(t);
      assert multiset(Elems(s)) == multiset(Elems(t)) + multiset{x};
    }
  }

  /** Two duplicate-free sequences with the same elements are permutations of each other. */
  lemma SameElemsPermutation<T>(a: seq<T>, b: seq<T>)
    requires Distinct(a) && Distinct(b)
    requires Elems(a) == Elems(b)
    ensures multiset(a) == multiset(b)
  {
    DistinctMultiset(a);
    DistinctMultiset(b);
  }

  /** Two duplicate-free sequences with nothing in common concatenate to a duplicate-free one. */
  lemma DistinctConcat<T>(a: seq<T>, b: seq<T>)
    requires Distinct(a) && Distinct(b)
    requires forall x :: x in a ==> x !in b
    ensures Distinct(a + b)
  {
    forall i, j | 0 <= i < j < |a + b|
      ensures (a + b)[i] != (a + b)[j]
    {
      if i < |a| && j >= |a| {
        assert (a + b)[i] in a && (a + b)[j] in b;
      }
    }
  }

  /** A subset as large as the set is the whole set. */
  lemma SubsetSameCard<T>(A: set<T>, B: set<T>)
    requires A <= B && |A| == |B|
    ensures A == B
  {
    if A != B {
      assert !(B <= A);
      var x :| x in B && x !in A;
      SubsetCard(A, B - {x});
    }
  }

  /** A duplicate-free sequence drawn from S and as long as S is large covers S. */
  lemma DistinctCovers<T>(s: seq<T>, S: set<T>)
    requires Distinct(s) && |s| == |S|
    requires forall k :: 0 <= k < |s| ==> s[k] in S
    ensures forall x :: x in S ==> x in s
  {
    DistinctCard(s);
    SubsetSameCard(Elems(s), S);
  }
}
