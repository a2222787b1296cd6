/** Ascending order on sequences of reals, and the sort that builds the pooled population. */
module Sorting {

  ghost predicate Sorted(s: seq<real>) {
    forall i, j :: 0 <= i <= j < |s| ==> s[i] <= s[j]
  }

  /** Every member of a sorted sequence lies between its first and its last element. */
  lemma {:induction false} SortedBounds(s: seq<real>, v: real)
    requires Sorted(s) && v in s
    ensures s[0] <= v <= s[|s| - 1]
  {
    var i :| 0 <= i < |s| && s[i] == v;
    assert s[0] <= s[i] <= s[|s| - 1];
  }

  /** Inserts x before the first element of s that is larger than it. */
  function Insert(x: real, s: seq<real>): (r: seq<real>)
    requires Sorted(s)
    ensures Sorted(r)
    ensures multiset(r) == multiset(s) + multiset{x}
    ensures |r| == |s| + 1
    ensures r[0] == x || (|s| > 0 && r[0] == s[0])
  {
    if |s| == 0 || x <= s[0] then
      [x] + s
    else
      var rest := Insert(x, s[1..]);
      assert s == [s[0]] + s[1..];
      assert s[0] <= rest[0];
      [s[0]] + rest
  }

  /** The ascending rearrangement of s (the effect of np.sort). */
  function SortAscending(s: seq<real>): (r: seq<real>)
    ensures Sorted(r)
    ensures multiset(r) == multiset(s)
    ensures |r| == |s|
  {
    if s == [] then []
    else
      assert s == [s[0]] + s[1..];
      Insert(s[0], SortAscending(s[1..]))
  }

}
