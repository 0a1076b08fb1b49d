/** Sequence helpers shared by the rank store, the projection planner and the reorder sync. */
module Collections {

  datatype Option<T> = None | Some(value: T)

  /** No element of `s` occurs twice. */
  ghost predicate Distinct<T>(s: seq<T>) {
    forall i, j :: 0 <= i < j < |s| ==> s[i] != s[j]
  }

  lemma DistinctPrefix<T>(s: seq<T>, n: nat)
    requires Distinct(s) && n <= |s|
    ensures Distinct(s[..n])
  {
    forall i, j | 0 <= i < j < n ensures s[..n][i] != s[..n][j] {
      assert s[..n][i] == s[i] && s[..n][j] == s[j];
    }
  }

  lemma DistinctConcat<T>(a: seq<T>, b: seq<T>)
    requires Distinct(a) && Distinct(b)
    requires forall x :: x in a ==> x !in b
    ensures Distinct(a + b)
  {
    forall i, j | 0 <= i < j < |a + b| ensures (a + b)[i] != (a + b)[j] {
      if j < |a| {
      } else if i < |a| {
        assert (a + b)[i] in a && (a + b)[j] in b;
      } else {
        assert (a + b)[i] == b[i - |a|] && (a + b)[j] == b[j - |a|];
      }
    }
  }

  /**
   * The elements of `s` that are not in `excluded`, in their order: an array
   * `filter` that drops a set of values, and also what `delete obj[k]` does to
   * an object's key order.
   */
  function Except<T(==,!new)>(s: seq<T>, excluded: set<T>): (r: seq<T>)
    ensures forall x :: x in r <==> x in s && x !in excluded
    ensures |r| <= |s|
  {
    if s == [] then []
    else
      var init, last := s[..|s| - 1], s[|s| - 1];
      assert s == init + [last];
      var p := Except(init, excluded);
      if last in excluded then p else p + [last]
  }

  lemma {:induction false} ExceptKeepsDistinct<T(!new)>(s: seq<T>, excluded: set<T>)
    requires Distinct(s)
    ensures Distinct(Except(s, excluded))
  {
    if s != [] {
      var init, last := s[..|s| - 1], s[|s| - 1];
      assert s == init + [last];
      DistinctPrefix(s, |s| - 1);
      ExceptKeepsDistinct(init, excluded);
      if last !in excluded {
        assert last !in init;
        DistinctConcat(Except(init, excluded), [last]);
      }
    }
  }

  lemma ExceptSnoc<T(!new)>(s: seq<T>, x: T, excluded: set<T>)
    ensures Except(s + [x], excluded) == if x in excluded then Except(s, excluded) else Except(s, excluded) + [x]
  {
    var t := s + [x];
    assert t[..|t| - 1] == s && t[|t| - 1] == x;
  }

  /** Excluding one value that occurs once removes exactly one element. */
  lemma {:induction false} ExceptOneLength<T(!new)>(s: seq<T>, x: T)
    requires Distinct(s) && x in s
    ensures |Except(s, {x})| == |s| - 1
  {
    var init, last := s[..|s| - 1], s[|s| - 1];
    assert s == init + [last];
    DistinctPrefix(s, |s| - 1);
    if last == x {
      forall i | 0 <= i < |init| ensures init[i] != x {
        assert init[i] == s[i];
      }
      ExceptNothing(init, {x});
    } else {
      ExceptOneLength(init, x);
    }
  }

  /** Excluding the one value appended to a sequence that lacks it gives the sequence back. */
  lemma ExceptLastOnly<T(!new)>(s: seq<T>, x: T)
    requires x !in s
    ensures Except(s + [x], {x}) == s
  {
    ExceptSnoc(s, x, {x});
    ExceptNothing(s, {x});
  }

  /** Excluding values that do not occur changes nothing. */
  lemma {:induction false} ExceptNothing<T(!new)>(s: seq<T>, excluded: set<T>)
    requires forall x :: x in s ==> x !in excluded
    ensures Except(s, excluded) == s
  {
    if s != [] {
      var init, last := s[..|s| - 1], s[|s| - 1];
      assert s == init + [last];
      ExceptNothing(init, excluded);
    }
  }

  /**
   * `s` with every value after its first occurrence dropped: the element at
   * index k is kept exactly when it does not occur in `s[..k]`.
   */
  function FirstOccurrences<T(==,!new)>(s: seq<T>): (r: seq<T>)
    ensures forall x :: x in r <==> x in s
    ensures Distinct(r)
  {
    if s == [] then []
    else
      var init, last := s[..|s| - 1], s[|s| - 1];
      assert s == init + [last];
      var p := FirstOccurrences(init);
      if last in init then p else p + [last]
  }

  /** The index of the first occurrence of `x` in `s`. */
  function FirstIndex<T(==,!new)>(s: seq<T>, x: T): (k: nat)
    requires x in s
    ensures k < |s| && s[k] == x && x !in s[..k]
  {
    if s[0] == x then 0
    else
      var k := 1 + FirstIndex(s[1..], x);
      assert s[..k] == [s[0]] + s[1..][..k - 1];
      k
  }

  lemma FirstIndexUnique<T(!new)>(s: seq<T>, x: T, k: nat)
    requires k < |s| && s[k] == x && x !in s[..k]
    ensures FirstIndex(s, x) == k
  {
  }

  /** First occurrences are listed in the order in which they first occur. */
  lemma {:induction false} FirstOccurrencesInOrder<T(!new)>(s: seq<T>)
    ensures forall i, j :: 0 <= i < j < |FirstOccurrences(s)| ==>
              FirstIndex(s, FirstOccurrences(s)[i]) < FirstIndex(s, FirstOccurrences(s)[j])
  {
    if s != [] {
      var init, last := s[..|s| - 1], s[|s| - 1];
      assert s == init + [last];
      FirstOccurrencesInOrder(init);
      var p := FirstOccurrences(init);
      forall x | x in init ensures FirstIndex(s, x) == FirstIndex(init, x) {
        var k := FirstIndex(init, x);
        assert s[..k] == init[..k];
        FirstIndexUnique(s, x, k);
      }
      if last !in init {
        assert s[..|s| - 1] == init;
        FirstIndexUnique(s, last, |s| - 1);
        var r := p + [last];
        forall i, j | 0 <= i < j < |r| ensures FirstIndex(s, r[i]) < FirstIndex(s, r[j]) {
          assert r[i] == p[i] && r[i] in init;
          if j < |p| {
            assert r[j] == p[j] && r[j] in init;
          }
        }
      } else {
        forall i | 0 <= i < |p| ensures p[i] in init { }
      }
    }
  }

  /** Of two first occurrences, the one that occurs first in `s` stands first. */
  lemma FirstOccurrencesIndexOrder<T(!new)>(s: seq<T>, i: nat, j: nat)
    requires i < |FirstOccurrences(s)| && j < |FirstOccurrences(s)|
    requires FirstIndex(s, FirstOccurrences(s)[i]) < FirstIndex(s, FirstOccurrences(s)[j])
    ensures i < j
  {
    FirstOccurrencesInOrder(s);
  }
}
