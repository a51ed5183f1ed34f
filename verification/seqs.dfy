/** Order-preserving filtering and counting of sequences: the shape of every
    neighbour scan in the critters (scan a list of cells, keep those that
    pass a test, append in scan order). */
module Seqs {

  /** No element occurs twice. */
  predicate Distinct<T(==)>(s: seq<T>) {
    forall i, j | 0 <= i < j < |s| :: s[i] != s[j]
  }

  /** The elements of `s` that satisfy `p`, in their original order. Defined
      from the back so that extending the scan by one cell extends the result
      by at most that cell, as an `ArrayList.add` inside a loop does. */
  function Filter<T(==)>(s: seq<T>, p: T -> bool): (r: seq<T>)
    ensures |r| <= |s|
    ensures forall x | x in r :: x in s && p(x)
    ensures forall x | x in s && p(x) :: x in r
    ensures Distinct(s) ==> Distinct(r)
  {
    if |s| == 0 then []
    else
      var init, last := s[..|s| - 1], s[|s| - 1];
      assert s == init + [last];
      Filter(init, p) + (if p(last) then [last] else [])
  }

  /** A prefix is the shorter prefix and one more element. */
  lemma TakeSnoc<T>(s: seq<T>, k: nat)
    requires 0 < k <= |s|
    ensures s[..k] == s[..k - 1] + [s[k - 1]]
  {
  }

  /** Filtering a sequence extended by one element. */
  lemma FilterSnoc<T>(s: seq<T>, x: T, p: T -> bool)
    ensures Filter(s + [x], p) == Filter(s, p) + (if p(x) then [x] else [])
  {
    var t := s + [x];
    assert t[..|t| - 1] == s && t[|t| - 1] == x;
  }

  /** Filtering one prefix longer. */
  lemma FilterTakeSnoc<T>(s: seq<T>, k: nat, p: T -> bool)
    requires 0 < k <= |s|
    ensures Filter(s[..k], p) == Filter(s[..k - 1], p) + (if p(s[k - 1]) then [s[k - 1]] else [])
  {
    TakeSnoc(s, k);
    FilterSnoc(s[..k - 1], s[k - 1], p);
  }

  /** Filtering a three-element sequence, one prefix at a time. */
  lemma FilterThree<T>(s: seq<T>, p: T -> bool)
    requires |s| == 3
    ensures Filter(s[..1], p) == (if p(s[0]) then [s[0]] else [])
    ensures Filter(s[..2], p) == Filter(s[..1], p) + (if p(s[1]) then [s[1]] else [])
    ensures Filter(s, p) == Filter(s[..2], p) + (if p(s[2]) then [s[2]] else [])
  {
    FilterTakeSnoc(s, 1, p);
    assert s[..0] == [];
    FilterTakeSnoc(s, 2, p);
    FilterTakeSnoc(s, 3, p);
    assert s[..3] == s;
  }

  /** How many elements of `s` satisfy `p` (a counting loop over `s`). */
  function Count<T(==)>(s: seq<T>, p: T -> bool): (n: nat)
    ensures n <= |s|
  {
    |Filter(s, p)|
  }

  /** A sequence without repetitions has as many elements as its set. */
  lemma {:induction false} DistinctCardinality<T>(s: seq<T>)
    requires Distinct(s)
    ensures |set x | x in s| == |s|
  {
    if |s| > 0 {
      var init, last := s[..|s| - 1], s[|s| - 1];
      assert s == init + [last];
      assert Distinct(init);
      DistinctCardinality(init);
      assert last !in init;
      assert (set x | x in s) == (set x | x in init) + {last};
    }
  }

  /** The elements of `s` that pass `p`, as a set. */
  function Matching<T>(s: seq<T>, p: T -> bool): set<T> {
    set x | x in s && p(x)
  }

  /** Counting over a repetition-free scan is the size of the set of elements
      that pass the test. */
  lemma CountIsCardinality<T>(s: seq<T>, p: T -> bool)
    requires Distinct(s)
    ensures Count(s, p) == |Matching(s, p)|
  {
    var r := Filter(s, p);
    DistinctCardinality(r);
    assert (set x | x in r) == Matching(s, p);
  }
}
