/** The LINQ operators of the selection that do not depend on scores. */
module Sequences {

  predicate NoDuplicates<T(==)>(s: seq<T>)
  {
    forall i, j :: 0 <= i < j < |s| ==> s[i] != s[j]
  }

  function Elements<T>(s: seq<T>): set<T>
  {
    set x | x in s
  }

  /** `rank` strictly increases along `s`. */
  predicate IncreasingBy<T>(s: seq<T>, rank: T -> int)
  {
    forall i, j :: 0 <= i < j < |s| ==> rank(s[i]) < rank(s[j])
  }

  /** Index of the first occurrence of `x` in `s`, or `|s|` when there is none. */
  function FirstIndex<T(==)>(s: seq<T>, x: T): (k: nat)
    ensures k <= |s|
    ensures k < |s| <==> x in s
    ensures k < |s| ==> s[k] == x
    ensures forall i :: 0 <= i < k ==> s[i] != x
  {
    if s == [] then 0
    else if s[0] == x then 0
    else 1 + FirstIndex(s[1..], x)
  }

  /** Extending a sequence does not move the first occurrence of what it already held. */
  lemma FirstIndexOfPrefix<T>(s: seq<T>, m: nat)
    requires m <= |s|
    ensures forall x :: x in s[..m] ==> FirstIndex(s, x) == FirstIndex(s[..m], x)
  {
    forall x | x in s[..m]
      ensures FirstIndex(s, x) == FirstIndex(s[..m], x)
    {
      FirstIndexInPrefix(s, m, x);
    }
  }

  lemma FirstIndexInPrefix<T>(s: seq<T>, m: nat, x: T)
    requires m <= |s| && x in s[..m]
    ensures FirstIndex(s, x) == FirstIndex(s[..m], x)
  {
    var prefix := s[..m];
    var p, q := FirstIndex(s, x), FirstIndex(prefix, x);
    assert q < m && prefix[q] == s[q] == x;
    assert p <= q;
    assert forall i :: 0 <= i < q ==> s[i] == prefix[i] != x;
  }

  /**
   * `Distinct()`: each element once, in order of first occurrence. The result
   * holds no duplicate and holds exactly the elements of `s`; it lists them
   * by increasing index of first occurrence (`DistinctInFirstOccurrenceOrder`).
   */
  function Distinct<T(==,!new)>(s: seq<T>): (r: seq<T>)
    ensures NoDuplicates(r)
    ensures forall x :: x in r <==> x in s
  {
    if s == [] then []
    else
      var d := Distinct(s[..|s| - 1]);
      assert s == s[..|s| - 1] + [s[|s| - 1]];
      if s[|s| - 1] in d then d else d + [s[|s| - 1]]
  }

  lemma {:induction false} DistinctInFirstOccurrenceOrder<T(!new)>(s: seq<T>)
    ensures IncreasingBy(Distinct(s), x => FirstIndex(s, x))
  {
    if s != [] {
      var init, last := s[..|s| - 1], s[|s| - 1];
      DistinctInFirstOccurrenceOrder(init);
      var d, r := Distinct(init), Distinct(s);
      assert s == init + [last];
      assert r == if last in d then d else d + [last];
      forall i, j | 0 <= i < j < |r|
        ensures FirstIndex(s, r[i]) < FirstIndex(s, r[j])
      {
        assert r[i] == d[i] && d[i] in init;
        FirstIndexInPrefix(s, |s| - 1, d[i]);
        if j < |d| {
          assert r[j] == d[j] && d[j] in init;
          FirstIndexInPrefix(s, |s| - 1, d[j]);
          assert FirstIndex(init, d[i]) < FirstIndex(init, d[j]);
        } else {
          assert r[j] == last && last !in init;
        }
      }
    }
  }

  /** The elements of `s` that `excluded` does not contain, in order. */
  function Without<T(==,!new)>(s: seq<T>, excluded: seq<T>): (r: seq<T>)
    ensures forall x :: x in r <==> x in s && x !in excluded
  {
    if s == [] then []
    else (if s[0] in excluded then [] else [s[0]]) + Without(s[1..], excluded)
  }

  /** Filtering keeps the relative order of what it keeps. */
  lemma {:induction false} WithoutKeepsOrder<T(!new)>(s: seq<T>, excluded: seq<T>, rank: T -> int)
    requires IncreasingBy(s, rank)
    ensures IncreasingBy(Without(s, excluded), rank)
  {
    if s != [] {
      var rest := Without(s[1..], excluded);
      WithoutKeepsOrder(s[1..], excluded, rank);
      forall y | y in rest
        ensures rank(s[0]) < rank(y)
      {
        var k :| 0 <= k < |s[1..]| && s[1..][k] == y;
        assert s[k + 1] == y;
      }
    }
  }

  /** Sequences whose rank strictly increases hold no duplicate. */
  lemma IncreasingHasNoDuplicates<T>(s: seq<T>, rank: T -> int)
    requires IncreasingBy(s, rank)
    ensures NoDuplicates(s)
  {
  }

  /** A sequence has at least as many positions as elements, and as many exactly when it has no duplicate. */
  lemma {:induction false} CountElements<T>(s: seq<T>)
    ensures |Elements(s)| <= |s|
    ensures |Elements(s)| == |s| <==> NoDuplicates(s)
  {
    if s != [] {
      var init, last := s[..|s| - 1], s[|s| - 1];
      CountElements(init);
      assert s == init + [last];
      assert Elements(s) == Elements(init) + {last};
      if last in init {
        assert Elements(s) == Elements(init);
        var k :| 0 <= k < |init| && init[k] == last;
        assert s[k] == s[|s| - 1];
      } else {
        assert NoDuplicates(s) <==> NoDuplicates(init);
      }
    }
  }

  /** Excluding nothing keeps everything. */
  lemma {:induction false} WithoutNothing<T(!new)>(s: seq<T>)
    ensures Without(s, []) == s
  {
    if s != [] {
      WithoutNothing(s[1..]);
      assert [s[0]] + s[1..] == s;
    }
  }

  /** `Distinct` keeps an appended element exactly when it is new. */
  lemma DistinctAppend<T(!new)>(s: seq<T>, x: T)
    ensures Distinct(s + [x]) == if x in s then Distinct(s) else Distinct(s) + [x]
  {
    assert (s + [x])[..|s|] == s;
  }
}
